/** The first published example of HMAC-SHA1, test case 1 of RFC 2202. */
module HmacVectors {
  import opened Octets
  import opened Sha1Spec
  import opened Sha1Fast
  import opened Sha1Vectors

  lemma InnerPacks()
    ensures Pack(0x3d, 0x3d, 0x3d, 0x3d) == 0x3D3D3D3D
    ensures Pack(0x36, 0x36, 0x36, 0x36) == 0x36363636
  {
  }

  lemma InnerWords(block: seq<byte>)
    requires |block| == 64
    requires Filled(block, 0, 5, 0x3d)
    requires Filled(block, 5, 16, 0x36)
    ensures Ws(block, 0) ==
      [0x3D3D3D3D, 0x3D3D3D3D, 0x3D3D3D3D, 0x3D3D3D3D, 0x3D3D3D3D, 0x36363636, 0x36363636, 0x36363636,
       0x36363636, 0x36363636, 0x36363636, 0x36363636, 0x36363636, 0x36363636, 0x36363636, 0x36363636]
  {
    InnerPacks();
    hide Ws, Pack;
    FilledWords(block, 0, 5, 0x3d);
    FilledWords(block, 5, 16, 0x36);
  }

  lemma Inner0()
    ensures Five(0, Work(State(0x67452301, 0xEFCDAB89, 0x98BADCFE, 0x10325476, 0xC3D2E1F0),
      [0x3D3D3D3D, 0x3D3D3D3D, 0x3D3D3D3D, 0x3D3D3D3D, 0x3D3D3D3D, 0x36363636, 0x36363636, 0x36363636,
       0x36363636, 0x36363636, 0x36363636, 0x36363636, 0x36363636, 0x36363636, 0x36363636, 0x36363636])) ==
      Work(State(0x1827D30, 0x772495F0, 0x51E3CDE6, 0x26756525, 0x91C4B45D),
      [0x7A7A7A7A, 0x6C6C6C6C, 0x98989898, 0x98989898, 0xD8D8D8D8, 0x31313131, 0x31313131, 0x45454545,
       0x96969696, 0xBABABABA, 0xD7D7D7D7, 0x70707070, 0xC4C4C4C4, 0x39393939, 0x76767676, 0x2F2F2F2F])
  {
  }

  lemma Inner1()
    ensures Five(1, Work(State(0x1827D30, 0x772495F0, 0x51E3CDE6, 0x26756525, 0x91C4B45D),
      [0x7A7A7A7A, 0x6C6C6C6C, 0x98989898, 0x98989898, 0xD8D8D8D8, 0x31313131, 0x31313131, 0x45454545,
       0x96969696, 0xBABABABA, 0xD7D7D7D7, 0x70707070, 0xC4C4C4C4, 0x39393939, 0x76767676, 0x2F2F2F2F])) ==
      Work(State(0x5BC8C85, 0x94688DCE, 0x41EF10B8, 0xB01EE2DB, 0xF187AA14),
      [0xBABABABA, 0x78787878, 0xAEAEAEAE, 0xD4D4D4D4, 0x47474747, 0x28282828, 0x6D6D6D6D, 0x11111111,
       0x40404040, 0x6060606, 0xA6A6A6A6, 0x97979797, 0x55555555, 0xF0F0F0F0, 0x62626262, 0x75757575])
  {
  }

  lemma Inner2()
    ensures Five(2, Work(State(0x5BC8C85, 0x94688DCE, 0x41EF10B8, 0xB01EE2DB, 0xF187AA14),
      [0xBABABABA, 0x78787878, 0xAEAEAEAE, 0xD4D4D4D4, 0x47474747, 0x28282828, 0x6D6D6D6D, 0x11111111,
       0x40404040, 0x6060606, 0xA6A6A6A6, 0x97979797, 0x55555555, 0xF0F0F0F0, 0x62626262, 0x75757575])) ==
      Work(State(0xF3B4FB01, 0x43CEFB89, 0xB0A3932, 0x83445A39, 0x8D263127),
      [0xDDDDDDDD, 0x7B7B7B7B, 0x16161616, 0x7F7F7F7F, 0xA9A9A9A9, 0x2C2C2C2C, 0xF1F1F1F1, 0x15151515,
       0x8D8D8D8D, 0x1E1E1E1E, 0x50505050, 0x2C2C2C2C, 0x15151515, 0x53535353, 0xE8E8E8E8, 0x7E7E7E7E])
  {
  }

  lemma Inner3()
    ensures Five(3, Work(State(0xF3B4FB01, 0x43CEFB89, 0xB0A3932, 0x83445A39, 0x8D263127),
      [0xDDDDDDDD, 0x7B7B7B7B, 0x16161616, 0x7F7F7F7F, 0xA9A9A9A9, 0x2C2C2C2C, 0xF1F1F1F1, 0x15151515,
       0x8D8D8D8D, 0x1E1E1E1E, 0x50505050, 0x2C2C2C2C, 0x15151515, 0x53535353, 0xE8E8E8E8, 0x7E7E7E7E])) ==
      Work(State(0x9F074329, 0xDCA12627, 0xD43FBDB2, 0xF3FCBF09, 0xAD28EFB),
      [0x51515151, 0x92929292, 0x7C7C7C7C, 0x48484848, 0xCACACACA, 0x57575757, 0x5C5C5C5C, 0x3E3E3E3E,
       0xF7F7F7F7, 0xC7C7C7C7, 0x1010101, 0x48484848, 0x8080808, 0x32323232, 0xCCCCCCCC, 0x1C1C1C1C])
  {
  }

  lemma Inner()
    ensures Fast(State(0x67452301, 0xEFCDAB89, 0x98BADCFE, 0x10325476, 0xC3D2E1F0),
      [0x3D3D3D3D, 0x3D3D3D3D, 0x3D3D3D3D, 0x3D3D3D3D, 0x3D3D3D3D, 0x36363636, 0x36363636, 0x36363636,
       0x36363636, 0x36363636, 0x36363636, 0x36363636, 0x36363636, 0x36363636, 0x36363636, 0x36363636]) == State(0x64C662A, 0xCC6ED1B0, 0x6CFA9AB0, 0x42F137F, 0xCEA570EB)
  {
    hide Five;
    Inner0();
    Inner1();
    Inner2();
    Inner3();
  }

  lemma InnerEndPacks()
    ensures Pack(0x48, 0x69, 0x20, 0x54) == 0x48692054
    ensures Pack(0x68, 0x65, 0x72, 0x65) == 0x68657265
    ensures Pack(0x80, 0x00, 0x00, 0x00) == 0x80000000
    ensures Pack(0x00, 0x00, 0x00, 0x00) == 0
    ensures Pack(0x00, 0x00, 0x02, 0x40) == 0x240
  {
  }

  lemma InnerEndWords(block: seq<byte>)
    requires |block| == 64
    requires Holds(block, 0, 0x48, 0x69, 0x20, 0x54)
    requires Holds(block, 1, 0x68, 0x65, 0x72, 0x65)
    requires Holds(block, 2, 0x80, 0x00, 0x00, 0x00)
    requires Filled(block, 3, 15, 0x00)
    requires Holds(block, 15, 0x00, 0x00, 0x02, 0x40)
    ensures Ws(block, 0) ==
      [0x48692054, 0x68657265, 0x80000000, 0, 0, 0, 0, 0,
       0, 0, 0, 0, 0, 0, 0, 0x240]
  {
    InnerEndPacks();
    hide Ws, Pack;
    HeldWord(block, 0, 0x48, 0x69, 0x20, 0x54);
    HeldWord(block, 1, 0x68, 0x65, 0x72, 0x65);
    HeldWord(block, 2, 0x80, 0x00, 0x00, 0x00);
    FilledWords(block, 3, 15, 0x00);
    HeldWord(block, 15, 0x00, 0x00, 0x02, 0x40);
  }

  lemma InnerEnd0()
    ensures Five(0, Work(State(0x64C662A, 0xCC6ED1B0, 0x6CFA9AB0, 0x42F137F, 0xCEA570EB),
      [0x48692054, 0x68657265, 0x80000000, 0, 0, 0, 0, 0,
       0, 0, 0, 0, 0, 0, 0, 0x240])) ==
      Work(State(0xC17BEB91, 0xDC934E98, 0xFD684661, 0x8AEDF048, 0xC70DBB5B),
      [0xA195C995, 0x902, 0x434902A6, 0x432B97AB, 0x21A49357, 0x2707CCD9, 0x86572654, 0x2408,
       0xD240A99, 0xCAE5A2D, 0xA736CC0F, 0x3D8AF771, 0x7BB11AA5, 0xE2BECA9E, 0x34903862, 0xB42B6DF8])
  {
  }

  lemma InnerEnd1()
    ensures Five(1, Work(State(0xC17BEB91, 0xDC934E98, 0xFD684661, 0x8AEDF048, 0xC70DBB5B),
      [0xA195C995, 0x902, 0x434902A6, 0x432B97AB, 0x21A49357, 0x2707CCD9, 0x86572654, 0x2408,
       0xD240A99, 0xCAE5A2D, 0xA736CC0F, 0x3D8AF771, 0x7BB11AA5, 0xE2BECA9E, 0x34903862, 0xB42B6DF8])) ==
      Work(State(0x422645C7, 0xFEE73464, 0xF7CFB166, 0xE55DB83B, 0x324B6324),
      [0x54D2ACD4, 0x4CB28486, 0x736CC0F2, 0xD8AF7E13, 0xF858A8F1, 0x68C728C5, 0xCF91916B, 0x4273C391,
       0xE6694DAC, 0xAB6D6517, 0x3E065AD2, 0xF98D4F16, 0x54B37705, 0x4D7FFE1A, 0x25C254B, 0xB84E8989])
  {
  }

  lemma InnerEnd2()
    ensures Five(2, Work(State(0x422645C7, 0xFEE73464, 0xF7CFB166, 0xE55DB83B, 0x324B6324),
      [0x54D2ACD4, 0x4CB28486, 0x736CC0F2, 0xD8AF7E13, 0xF858A8F1, 0x68C728C5, 0xCF91916B, 0x4273C391,
       0xE6694DAC, 0xAB6D6517, 0x3E065AD2, 0xF98D4F16, 0x54B37705, 0x4D7FFE1A, 0x25C254B, 0xB84E8989])) ==
      Work(State(0x37C71A84, 0x1FB601B, 0x5947172B, 0x9C017F13, 0x77E50218),
      [0x3246761A, 0xFA64C7FC, 0x159B689D, 0xC62CB22A, 0x76B4DF46, 0x7A446E1C, 0x6CC1D29B, 0xC65E4710,
       0x3DDA9490, 0xC728C5E8, 0x91916BCF, 0x73C3B542, 0x6469A67F, 0x61CA7B06, 0x6F7ACEE6, 0xF274D6A3])
  {
  }

  lemma InnerEnd3()
    ensures Five(3, Work(State(0x37C71A84, 0x1FB601B, 0x5947172B, 0x9C017F13, 0x77E50218),
      [0x3246761A, 0xFA64C7FC, 0x159B689D, 0xC62CB22A, 0x76B4DF46, 0x7A446E1C, 0x6CC1D29B, 0xC65E4710,
       0x3DDA9490, 0xC728C5E8, 0x91916BCF, 0x73C3B542, 0x6469A67F, 0x61CA7B06, 0x6F7ACEE6, 0xF274D6A3])) ==
      Work(State(0x3119D19E, 0xC5CEF3E5, 0x771F8CE7, 0x2A6A3DA2, 0x4E9B5DAD),
      [0xAC50AC26, 0xB8888EC9, 0x9C013C82, 0xBEA5F0FA, 0xC6B12769, 0x1BD6332, 0x95925048, 0x49B3FF03,
       0x4DFD4F1B, 0x7D48E649, 0x9AA7DE8A, 0x523129E6, 0x9BEC6CD8, 0x869EAD4B, 0xD4CF81CC, 0x356C177C])
  {
  }

  lemma InnerEnd()
    ensures Fast(State(0x64C662A, 0xCC6ED1B0, 0x6CFA9AB0, 0x42F137F, 0xCEA570EB),
      [0x48692054, 0x68657265, 0x80000000, 0, 0, 0, 0, 0,
       0, 0, 0, 0, 0, 0, 0, 0x240]) == State(0x376637C8, 0x923DC595, 0xE41A2797, 0x2E995121, 0x1D40CE98)
  {
    hide Five;
    InnerEnd0();
    InnerEnd1();
    InnerEnd2();
    InnerEnd3();
  }

  lemma InnerWord0()
    ensures WordBytes(0x376637C8) == [0x37, 0x66, 0x37, 0xc8]
  {
    assert Pack(0x37, 0x66, 0x37, 0xc8) == 0x376637C8;
    hide *;
    WordOut(0x376637C8, 0x37, 0x66, 0x37, 0xc8);
  }

  lemma InnerWord1()
    ensures WordBytes(0x923DC595) == [0x92, 0x3d, 0xc5, 0x95]
  {
    assert Pack(0x92, 0x3d, 0xc5, 0x95) == 0x923DC595;
    hide *;
    WordOut(0x923DC595, 0x92, 0x3d, 0xc5, 0x95);
  }

  lemma InnerWord2()
    ensures WordBytes(0xE41A2797) == [0xe4, 0x1a, 0x27, 0x97]
  {
    assert Pack(0xe4, 0x1a, 0x27, 0x97) == 0xE41A2797;
    hide *;
    WordOut(0xE41A2797, 0xe4, 0x1a, 0x27, 0x97);
  }

  lemma InnerWord3()
    ensures WordBytes(0x2E995121) == [0x2e, 0x99, 0x51, 0x21]
  {
    assert Pack(0x2e, 0x99, 0x51, 0x21) == 0x2E995121;
    hide *;
    WordOut(0x2E995121, 0x2e, 0x99, 0x51, 0x21);
  }

  lemma InnerWord4()
    ensures WordBytes(0x1D40CE98) == [0x1d, 0x40, 0xce, 0x98]
  {
    assert Pack(0x1d, 0x40, 0xce, 0x98) == 0x1D40CE98;
    hide *;
    WordOut(0x1D40CE98, 0x1d, 0x40, 0xce, 0x98);
  }

  lemma InnerOut()
    ensures StateBytes(State(0x376637C8, 0x923DC595, 0xE41A2797, 0x2E995121, 0x1D40CE98)) ==
      [0x37, 0x66, 0x37, 0xc8, 0x92, 0x3d, 0xc5, 0x95, 0xe4, 0x1a, 0x27, 0x97, 0x2e, 0x99, 0x51, 0x21, 0x1d, 0x40, 0xce, 0x98]
  {
    hide WordBytes;
    InnerWord0();
    InnerWord1();
    InnerWord2();
    InnerWord3();
    InnerWord4();
  }


  lemma OuterPacks()
    ensures Pack(0x57, 0x57, 0x57, 0x57) == 0x57575757
    ensures Pack(0x5c, 0x5c, 0x5c, 0x5c) == 0x5C5C5C5C
  {
  }

  lemma OuterWords(block: seq<byte>)
    requires |block| == 64
    requires Filled(block, 0, 5, 0x57)
    requires Filled(block, 5, 16, 0x5c)
    ensures Ws(block, 0) ==
      [0x57575757, 0x57575757, 0x57575757, 0x57575757, 0x57575757, 0x5C5C5C5C, 0x5C5C5C5C, 0x5C5C5C5C,
       0x5C5C5C5C, 0x5C5C5C5C, 0x5C5C5C5C, 0x5C5C5C5C, 0x5C5C5C5C, 0x5C5C5C5C, 0x5C5C5C5C, 0x5C5C5C5C]
  {
    OuterPacks();
    hide Ws, Pack;
    FilledWords(block, 0, 5, 0x57);
    FilledWords(block, 5, 16, 0x5c);
  }

  lemma Outer0()
    ensures Five(0, Work(State(0x67452301, 0xEFCDAB89, 0x98BADCFE, 0x10325476, 0xC3D2E1F0),
      [0x57575757, 0x57575757, 0x57575757, 0x57575757, 0x57575757, 0x5C5C5C5C, 0x5C5C5C5C, 0x5C5C5C5C,
       0x5C5C5C5C, 0x5C5C5C5C, 0x5C5C5C5C, 0x5C5C5C5C, 0x5C5C5C5C, 0x5C5C5C5C, 0x5C5C5C5C, 0x5C5C5C5C])) ==
      Work(State(0x72188F2, 0x9B11C6C9, 0xDB684089, 0xE4868493, 0xA3BF7454),
      [0xAEAEAEAE, 0xB8B8B8B8, 0xE5E5E5E5, 0xE5E5E5E5, 0x71717171, 0xCBCBCBCB, 0xCBCBCBCB, 0xBFBFBFBF,
       0xCACACACA, 0xE6E6E6E6, 0xC0C0C0C, 0xE6E6E6E6, 0x2F2F2F2F, 0xD2D2D2D2, 0x7070707, 0xD0D0D0D])
  {
  }

  lemma Outer1()
    ensures Five(1, Work(State(0x72188F2, 0x9B11C6C9, 0xDB684089, 0xE4868493, 0xA3BF7454),
      [0xAEAEAEAE, 0xB8B8B8B8, 0xE5E5E5E5, 0xE5E5E5E5, 0x71717171, 0xCBCBCBCB, 0xCBCBCBCB, 0xBFBFBFBF,
       0xCACACACA, 0xE6E6E6E6, 0xC0C0C0C, 0xE6E6E6E6, 0x2F2F2F2F, 0xD2D2D2D2, 0x7070707, 0xD0D0D0D])) ==
      Work(State(0x8688E802, 0x471CD067, 0xA7CFD43E, 0x9A87A9D7, 0x47D1FAA8),
      [0xD9D9D9D9, 0x1B1B1B1B, 0xB5B5B5B5, 0x1B1B1B1B, 0xF6F6F6F6, 0x99999999, 0x26262626, 0x3C3C3C3C,
       0xD0D0D0D0, 0xC5C5C5C5, 0x50505050, 0x7F7F7F7F, 0x7D7D7D7D, 0xD8D8D8D8, 0x57575757, 0xD0D0D0D])
  {
  }

  lemma Outer2()
    ensures Five(2, Work(State(0x8688E802, 0x471CD067, 0xA7CFD43E, 0x9A87A9D7, 0x47D1FAA8),
      [0xD9D9D9D9, 0x1B1B1B1B, 0xB5B5B5B5, 0x1B1B1B1B, 0xF6F6F6F6, 0x99999999, 0x26262626, 0x3C3C3C3C,
       0xD0D0D0D0, 0xC5C5C5C5, 0x50505050, 0x7F7F7F7F, 0x7D7D7D7D, 0xD8D8D8D8, 0x57575757, 0xD0D0D0D])) ==
      Work(State(0xE8B5D054, 0xF83A29C9, 0xB8D75D65, 0x8FDF8D5E, 0x624F5D9A),
      [0x11111111, 0x82828282, 0x97979797, 0xCBCBCBCB, 0x95959595, 0x10101010, 0xB5B5B5B5, 0xB0B0B0B0,
       0x56565656, 0xC5C5C5C5, 0x71717171, 0x6B6B6B6B, 0x49494949, 0x5C5C5C5C, 0xE7E7E7E7, 0x22222222])
  {
  }

  lemma Outer3()
    ensures Five(3, Work(State(0xE8B5D054, 0xF83A29C9, 0xB8D75D65, 0x8FDF8D5E, 0x624F5D9A),
      [0x11111111, 0x82828282, 0x97979797, 0xCBCBCBCB, 0x95959595, 0x10101010, 0xB5B5B5B5, 0xB0B0B0B0,
       0x56565656, 0xC5C5C5C5, 0x71717171, 0x6B6B6B6B, 0x49494949, 0x5C5C5C5C, 0xE7E7E7E7, 0x22222222])) ==
      Work(State(0x6EE5A9CB, 0x8E9CED2A, 0x46467E04, 0xC8536F6A, 0xD7FEA2DB),
      [0x7F7F7F7F, 0xBCBCBCBC, 0xAEAEAEAE, 0x50505050, 0x5050505, 0xADADADAD, 0x95959595, 0xC2C2C2C2,
       0xF8F8F8F8, 0xAEAEAEAE, 0x25252525, 0xB8B8B8B8, 0x20202020, 0x1A1A1A1A, 0xE1E1E1E1, 0x1A1A1A1A])
  {
  }

  lemma Outer()
    ensures Fast(State(0x67452301, 0xEFCDAB89, 0x98BADCFE, 0x10325476, 0xC3D2E1F0),
      [0x57575757, 0x57575757, 0x57575757, 0x57575757, 0x57575757, 0x5C5C5C5C, 0x5C5C5C5C, 0x5C5C5C5C,
       0x5C5C5C5C, 0x5C5C5C5C, 0x5C5C5C5C, 0x5C5C5C5C, 0x5C5C5C5C, 0x5C5C5C5C, 0x5C5C5C5C, 0x5C5C5C5C]) == State(0xD62ACCCC, 0x7E6A98B3, 0xDF015B02, 0xD885C3E0, 0x9BD184CB)
  {
    hide Five;
    Outer0();
    Outer1();
    Outer2();
    Outer3();
  }

  lemma OuterEndPacks()
    ensures Pack(0x37, 0x66, 0x37, 0xc8) == 0x376637C8
    ensures Pack(0x92, 0x3d, 0xc5, 0x95) == 0x923DC595
    ensures Pack(0xe4, 0x1a, 0x27, 0x97) == 0xE41A2797
    ensures Pack(0x2e, 0x99, 0x51, 0x21) == 0x2E995121
    ensures Pack(0x1d, 0x40, 0xce, 0x98) == 0x1D40CE98
  {
  }

  lemma OuterTailPacks()
    ensures Pack(0x80, 0x00, 0x00, 0x00) == 0x80000000
    ensures Pack(0x00, 0x00, 0x00, 0x00) == 0
    ensures Pack(0x00, 0x00, 0x02, 0xa0) == 0x2A0
  {
  }

  lemma OuterEndWords(block: seq<byte>)
    requires |block| == 64
    requires Holds(block, 0, 0x37, 0x66, 0x37, 0xc8)
    requires Holds(block, 1, 0x92, 0x3d, 0xc5, 0x95)
    requires Holds(block, 2, 0xe4, 0x1a, 0x27, 0x97)
    requires Holds(block, 3, 0x2e, 0x99, 0x51, 0x21)
    requires Holds(block, 4, 0x1d, 0x40, 0xce, 0x98)
    requires Holds(block, 5, 0x80, 0x00, 0x00, 0x00)
    requires Filled(block, 6, 15, 0x00)
    requires Holds(block, 15, 0x00, 0x00, 0x02, 0xa0)
    ensures Ws(block, 0) ==
      [0x376637C8, 0x923DC595, 0xE41A2797, 0x2E995121, 0x1D40CE98, 0x80000000, 0, 0,
       0, 0, 0, 0, 0, 0, 0, 0x2A0]
  {
    OuterEndPacks();
    OuterTailPacks();
    hide Ws, Pack;
    HeldWord(block, 0, 0x37, 0x66, 0x37, 0xc8);
    HeldWord(block, 1, 0x92, 0x3d, 0xc5, 0x95);
    HeldWord(block, 2, 0xe4, 0x1a, 0x27, 0x97);
    HeldWord(block, 3, 0x2e, 0x99, 0x51, 0x21);
    HeldWord(block, 4, 0x1d, 0x40, 0xce, 0x98);
    HeldWord(block, 5, 0x80, 0x00, 0x00, 0x00);
    FilledWords(block, 6, 15, 0x00);
    HeldWord(block, 15, 0x00, 0x00, 0x02, 0xa0);
  }

  lemma OuterEnd0()
    ensures Five(0, Work(State(0xD62ACCCC, 0x7E6A98B3, 0xDF015B02, 0xD885C3E0, 0x9BD184CB),
      [0x376637C8, 0x923DC595, 0xE41A2797, 0x2E995121, 0x1D40CE98, 0x80000000, 0, 0,
       0, 0, 0, 0, 0, 0, 0, 0x2A0])) ==
      Work(State(0x87352C04, 0xB3A5F54F, 0x514BFDCB, 0xCFEB57FE, 0x57B2D8D),
      [0xC813CFE2, 0xE56BAEBE, 0x2185C678, 0x90279A85, 0x87271C02, 0xB199DE22, 0xC5249BB4, 0x2FCBFE7D,
       0xF3142380, 0x409E6F54, 0x516C3175, 0x34F52598, 0x27E9096D, 0x12FC4A05, 0x96EF4D23, 0xFB177525])
  {
  }

  lemma OuterEnd1()
    ensures Five(1, Work(State(0x87352C04, 0xB3A5F54F, 0x514BFDCB, 0xCFEB57FE, 0x57B2D8D),
      [0xC813CFE2, 0xE56BAEBE, 0x2185C678, 0x90279A85, 0x87271C02, 0xB199DE22, 0xC5249BB4, 0x2FCBFE7D,
       0xF3142380, 0x409E6F54, 0x516C3175, 0x34F52598, 0x27E9096D, 0x12FC4A05, 0x96EF4D23, 0xFB177525])) ==
      Work(State(0xF70A6C49, 0x3EA9870, 0x8A6622DE, 0xB1561711, 0x64580F89),
      [0x47214484, 0x2A3AAC1D, 0x57616E2B, 0xA6C74111, 0x317CFDAD, 0xCAE010FC, 0x93E28ABB, 0x3835A064,
       0x798E206C, 0xA066330C, 0xD28E86A5, 0xC4487182, 0x30AA6597, 0xAAF7F184, 0x127107D2, 0x539457D8])
  {
  }

  lemma OuterEnd2()
    ensures Five(2, Work(State(0xF70A6C49, 0x3EA9870, 0x8A6622DE, 0xB1561711, 0x64580F89),
      [0x47214484, 0x2A3AAC1D, 0x57616E2B, 0xA6C74111, 0x317CFDAD, 0xCAE010FC, 0x93E28ABB, 0x3835A064,
       0x798E206C, 0xA066330C, 0xD28E86A5, 0xC4487182, 0x30AA6597, 0xAAF7F184, 0x127107D2, 0x539457D8])) ==
      Work(State(0x9FE05C3C, 0x8A46B046, 0x9BC9EFF5, 0x78916499, 0x2F24F3E8),
      [0xDFC3424B, 0x2C5989D7, 0x4848018B, 0x28090DF6, 0x255B322, 0xA367E142, 0x846D666, 0x61A73DC8,
       0xBCFF8298, 0xBAF9F3DB, 0x7BDB9A3D, 0x756ED625, 0xE1A26703, 0xF2A0CA37, 0xD9CB8FFE, 0xE0CAFDB9])
  {
  }

  lemma OuterEnd3()
    ensures Five(3, Work(State(0x9FE05C3C, 0x8A46B046, 0x9BC9EFF5, 0x78916499, 0x2F24F3E8),
      [0xDFC3424B, 0x2C5989D7, 0x4848018B, 0x28090DF6, 0x255B322, 0xA367E142, 0x846D666, 0x61A73DC8,
       0xBCFF8298, 0xBAF9F3DB, 0x7BDB9A3D, 0x756ED625, 0xE1A26703, 0xF2A0CA37, 0xD9CB8FFE, 0xE0CAFDB9])) ==
      Work(State(0xDFEC64BA, 0xD69AD9B1, 0x38A65B4, 0x22B1C8AE, 0x55753935),
      [0x4AE9E49E, 0x24F379CD, 0xEC450739, 0xE2FBAE68, 0xA0FEEF6E, 0xDA2FA59F, 0xB537F21B, 0x78C157C1,
       0x515F53F9, 0x75D78B1, 0xFDCF93B3, 0x3B57E041, 0x6C2456B7, 0xE4EB3D70, 0xCD20B93E, 0x568C404F])
  {
  }

  lemma OuterEnd()
    ensures Fast(State(0xD62ACCCC, 0x7E6A98B3, 0xDF015B02, 0xD885C3E0, 0x9BD184CB),
      [0x376637C8, 0x923DC595, 0xE41A2797, 0x2E995121, 0x1D40CE98, 0x80000000, 0, 0,
       0, 0, 0, 0, 0, 0, 0, 0x2A0]) == State(0xB6173186, 0x55057264, 0xE28BC0B6, 0xFB378C8E, 0xF146BE00)
  {
    hide Five;
    OuterEnd0();
    OuterEnd1();
    OuterEnd2();
    OuterEnd3();
  }

  lemma OuterWord0()
    ensures WordBytes(0xB6173186) == [0xb6, 0x17, 0x31, 0x86]
  {
    assert Pack(0xb6, 0x17, 0x31, 0x86) == 0xB6173186;
    hide *;
    WordOut(0xB6173186, 0xb6, 0x17, 0x31, 0x86);
  }

  lemma OuterWord1()
    ensures WordBytes(0x55057264) == [0x55, 0x05, 0x72, 0x64]
  {
    assert Pack(0x55, 0x05, 0x72, 0x64) == 0x55057264;
    hide *;
    WordOut(0x55057264, 0x55, 0x05, 0x72, 0x64);
  }

  lemma OuterWord2()
    ensures WordBytes(0xE28BC0B6) == [0xe2, 0x8b, 0xc0, 0xb6]
  {
    assert Pack(0xe2, 0x8b, 0xc0, 0xb6) == 0xE28BC0B6;
    hide *;
    WordOut(0xE28BC0B6, 0xe2, 0x8b, 0xc0, 0xb6);
  }

  lemma OuterWord3()
    ensures WordBytes(0xFB378C8E) == [0xfb, 0x37, 0x8c, 0x8e]
  {
    assert Pack(0xfb, 0x37, 0x8c, 0x8e) == 0xFB378C8E;
    hide *;
    WordOut(0xFB378C8E, 0xfb, 0x37, 0x8c, 0x8e);
  }

  lemma OuterWord4()
    ensures WordBytes(0xF146BE00) == [0xf1, 0x46, 0xbe, 0x00]
  {
    assert Pack(0xf1, 0x46, 0xbe, 0x00) == 0xF146BE00;
    hide *;
    WordOut(0xF146BE00, 0xf1, 0x46, 0xbe, 0x00);
  }

  lemma OuterOut()
    ensures StateBytes(State(0xB6173186, 0x55057264, 0xE28BC0B6, 0xFB378C8E, 0xF146BE00)) ==
      [0xb6, 0x17, 0x31, 0x86, 0x55, 0x05, 0x72, 0x64, 0xe2, 0x8b, 0xc0, 0xb6, 0xfb, 0x37, 0x8c, 0x8e, 0xf1, 0x46, 0xbe, 0x00]
  {
    hide WordBytes;
    OuterWord0();
    OuterWord1();
    OuterWord2();
    OuterWord3();
    OuterWord4();
  }


  const KEY: bytes := seq(20, _ => 0x0b)

  const HI_THERE: bytes := [0x48, 0x69, 0x20, 0x54, 0x68, 0x65, 0x72, 0x65]

  const INNER: bytes := [0x37, 0x66, 0x37, 0xc8, 0x92, 0x3d, 0xc5, 0x95, 0xe4, 0x1a, 0x27, 0x97, 0x2e, 0x99, 0x51, 0x21, 0x1d, 0x40, 0xce, 0x98]

  const OUTER: bytes := [0xb6, 0x17, 0x31, 0x86, 0x55, 0x05, 0x72, 0x64, 0xe2, 0x8b, 0xc0, 0xb6, 0xfb, 0x37, 0x8c, 0x8e, 0xf1, 0x46, 0xbe, 0x00]

  lemma Xors()
    ensures Xor(0x0b, 0x36) == 0x3d && Xor(0, 0x36) == 0x36 && Xor(0x0b, 0x5c) == 0x57 && Xor(0, 0x5c) == 0x5c
  {
  }

  lemma KeyBlocks()
    ensures var i, o := XorAll(PadKey(KEY), 0x36), XorAll(PadKey(KEY), 0x5c);
      Filled(i, 0, 5, 0x3d) && Filled(i, 5, 16, 0x36) && Filled(o, 0, 5, 0x57) && Filled(o, 5, 16, 0x5c)
  {
    hide Xor;
    Xors();
  }

  /** The second block of a message whose first block is a padded key. */
  function Second(text: bytes): bytes {
    text + [0x80] + Zeros(ZeroCount(64 + |text|)) + BigEndian64(8 * (64 + |text|))
  }

  lemma PadSecond(first: bytes, text: bytes)
    requires |first| == 64
    ensures Pad(first + text) == first + Second(text)
  {
    hide BigEndian64;
  }

  lemma SecondParts(text: bytes, bits: nat)
    requires |text| % 4 == 0 && |text| < 52 && bits == 8 * (64 + |text|)
    ensures var b, n := Second(text), |text| / 4;
      && |b| == 64 && b[..|text|] == text && Holds(b, n, 0x80, 0, 0, 0) && Filled(b, n + 1, 14, 0)
      && b[56..] == BigEndian64(bits)
  {
    Eight(bits);
    hide BigEndian64;
    assert ZeroCount(64 + |text|) == 55 - |text|;
  }

  lemma Eight(n: nat)
    ensures |BigEndian64(n)| == 8
  {
  }

  lemma Lengths()
    ensures BigEndian64(576) == [0, 0, 0, 0, 0, 0, 0x02, 0x40]
    ensures BigEndian64(672) == [0, 0, 0, 0, 0, 0, 0x02, 0xa0]
  {
  }

  /** The words at the end of a block that ends with a message's length. */
  lemma LastWords(b: bytes, lo: nat, x: byte, y: byte)
    requires |b| == 64 && lo <= 14 && Filled(b, lo, 14, 0) && b[56..] == [0, 0, 0, 0, 0, 0, x, y]
    ensures Filled(b, lo, 15, 0) && Holds(b, 15, 0, 0, x, y)
  {
    forall j | 0 <= j < 8
      ensures b[56 + j] == b[56..][j]
    {
    }
    assert b[56..][0] == 0 && b[56..][1] == 0 && b[56..][2] == 0 && b[56..][3] == 0;
  }

  lemma WordOf(b: bytes, text: bytes, i: nat)
    requires |b| == 64 && |text| <= 64 && b[..|text|] == text && 4 * i + 4 <= |text|
    ensures Holds(b, i, text[4 * i], text[4 * i + 1], text[4 * i + 2], text[4 * i + 3])
  {
    assert forall j :: 0 <= j < |text| ==> b[j] == b[..|text|][j];
  }

  lemma HiSecond()
    ensures var b := Second(HI_THERE);
      && |b| == 64 && Holds(b, 0, 0x48, 0x69, 0x20, 0x54) && Holds(b, 1, 0x68, 0x65, 0x72, 0x65)
      && Holds(b, 2, 0x80, 0, 0, 0) && Filled(b, 3, 15, 0) && Holds(b, 15, 0, 0, 0x02, 0x40)
  {
    Lengths();
    hide Second, BigEndian64, Filled, Holds;
    var b := Second(HI_THERE);
    SecondParts(HI_THERE, 576);
    LastWords(b, 3, 0x02, 0x40);
    WordOf(b, HI_THERE, 0);
    WordOf(b, HI_THERE, 1);
  }

  lemma InnerSecond()
    ensures var b := Second(INNER);
      && |b| == 64
      && Holds(b, 0, 0x37, 0x66, 0x37, 0xc8)
      && Holds(b, 1, 0x92, 0x3d, 0xc5, 0x95)
      && Holds(b, 2, 0xe4, 0x1a, 0x27, 0x97)
      && Holds(b, 3, 0x2e, 0x99, 0x51, 0x21)
      && Holds(b, 4, 0x1d, 0x40, 0xce, 0x98)
      && Holds(b, 5, 0x80, 0, 0, 0) && Filled(b, 6, 15, 0) && Holds(b, 15, 0, 0, 0x02, 0xa0)
  {
    Lengths();
    hide Second, BigEndian64, Filled, Holds;
    var b := Second(INNER);
    SecondParts(INNER, 672);
    LastWords(b, 6, 0x02, 0xa0);
    WordOf(b, INNER, 0);
    WordOf(b, INNER, 1);
    WordOf(b, INNER, 2);
    WordOf(b, INNER, 3);
    WordOf(b, INNER, 4);
  }

  lemma DigestTwo(first: bytes, text: bytes)
    requires |first| == 64 && |Second(text)| == 64 && |text| < 64
    ensures Digest(first + text) == StateBytes(Fast(Fast(IV, Ws(first, 0)), Ws(Second(text), 0)))
  {
    hide Pad, HashBlocks, StateBytes, Fast, Ws, Second;
    PadSecond(first, text);
    TwoBlocks(IV, first, Second(text));
  }

  lemma InnerDigest(first: bytes)
    requires |first| == 64 && Filled(first, 0, 5, 0x3d) && Filled(first, 5, 16, 0x36)
    ensures Digest(first + HI_THERE) == INNER
  {
    hide Digest, StateBytes, Fast, Ws, Second, Filled, Holds;
    HiSecond();
    DigestTwo(first, HI_THERE);
    InnerWords(first);
    InnerEndWords(Second(HI_THERE));
    Inner();
    InnerEnd();
    InnerOut();
  }

  lemma OuterDigest(first: bytes)
    requires |first| == 64 && Filled(first, 0, 5, 0x57) && Filled(first, 5, 16, 0x5c)
    ensures Digest(first + INNER) == OUTER
  {
    hide Digest, StateBytes, Fast, Ws, Second, Filled, Holds;
    InnerSecond();
    DigestTwo(first, INNER);
    OuterWords(first);
    OuterEndWords(Second(INNER));
    Outer();
    OuterEnd();
    OuterOut();
  }

  /** Test case 1 of RFC 2202: b6173186 55057264 e28bc0b6 fb378c8e f146be00. */
  lemma MacHiThere()
    ensures Mac(KEY, HI_THERE) ==
      [0xb6, 0x17, 0x31, 0x86, 0x55, 0x05, 0x72, 0x64, 0xe2, 0x8b, 0xc0, 0xb6, 0xfb, 0x37, 0x8c, 0x8e, 0xf1, 0x46, 0xbe, 0x00]
  {
    hide Digest, XorAll, PadKey, Filled;
    KeyBlocks();
    InnerDigest(XorAll(PadKey(KEY), 0x36));
    OuterDigest(XorAll(PadKey(KEY), 0x5c));
  }
}
