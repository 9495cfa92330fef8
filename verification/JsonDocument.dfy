/** Whole documents through the code: printed, parsed back, minified. */
module JsonDocument {
  import opened JsonStrings
  import opened Json
  import opened JsonComments
  import opened JsonEscapes
  import opened JsonGrammar
  import opened JsonMinify
  import opened JsonParser
  import opened JsonPrinter
  import opened JsonRoundTrip
  import opened JsonSyntax

  /** Parsing what was printed gives the tree back and overruns no buffer. */
  method PrintThenParse(v: Value, fmt: bool, requireEnd: bool) returns (r: Parsed<Value>, overrun: bool)
    requires Representable(v)
    ensures r == Ok(v, "") && !overrun
  {
    var text := PrintValue(v, 0, fmt);
    r, overrun := ParseWithOpts(text, requireEnd);
    DocumentRoundTrip(v, fmt, requireEnd);
    PrintRoomy(v, 0, fmt);
  }

  /** Parsing any text of the standard, blanks and all, gives its tree; with an end
      demanded it fails exactly when something other than blanks follows. */
  method ParseStandard(text: string, requireEnd: bool, ghost before: string, ghost x: Syntax, ghost rest: string)
    returns (r: Parsed<Value>, overrun: bool)
    requires text == before + (Spell(x) + rest) && JsonRoundTrip.Blank(before) && Standard(x) && Whole(x, rest) && '\0' !in rest
    ensures r.Fail? <==> requireEnd && !JsonRoundTrip.Blank(rest)
    ensures r.Ok? ==> r.value == Tree(x) && r.rest == if requireEnd then "" else rest
  {
    hide *;
    r, overrun := ParseWithOpts(text, requireEnd);
    DocumentRead(before, x, rest, requireEnd);
  }

  /** Minifying a buffer that holds either print leaves the compact print in it. */
  method MinifyPrinted(json: array<char>, ghost v: Value, ghost depth: nat, ghost fmt: bool) returns (ghost end: nat)
    requires Representable(v)
    requires
      var t := Print(v, depth, fmt);
      |t| < json.Length && json[..|t|] == t && json[|t|] == '\0'
    modifies json
    ensures end < json.Length && json[..end] == Print(v, depth, false) && json[end] == '\0'
  {
    PrintRoomy(v, depth, fmt);
    MinifyPrint(v, depth, fmt);
    end := MinifyInPlace(json, Print(v, depth, fmt));
  }

  /** Minifying a buffer that holds a text with blanks and comments leaves its tokens. */
  method MinifyText(json: array<char>, ghost before: string, ghost x: Syntax, ghost after: string) returns (ghost end: nat)
    requires Gap(before) && Gapped(x) && Gap(after)
    requires
      var t := before + (Spell(x) + after);
      '\0' !in t && |t| < json.Length && json[..|t|] == t && json[|t|] == '\0'
    modifies json
    ensures end < json.Length && json[..end] == Spell(Bare(x)) && json[end] == '\0'
    ensures ParseDocument(json[..end], true) == Ok(Tree(x), "")
  {
    hide *;
    ghost var t := before + (Spell(x) + after);
    MinifiedText(before, x, after, true);
    end := MinifyInPlace(json, t);
  }
}
