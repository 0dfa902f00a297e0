/** The strings of the examples in Appendix C of RFC 7541, and their Huffman codes. */
module RfcStrings {
  import opened Bits
  import opened HuffmanCode
  import opened HuffmanTable
  import opened Texts
  import opened Spellings

  // ----- texts -----

  function Www(): (r: Bytes)
    ensures |r| == 15 && forall i :: 0 <= i < |r| ==> r[i] < 0x80
  {
    Ascii("www.exam") + Ascii("ple.com")
  }

  function NoCache(): (r: Bytes)
    ensures |r| == 8 && forall i :: 0 <= i < |r| ==> r[i] < 0x80
  {
    Ascii("no-cache")
  }

  function CustomKey(): (r: Bytes)
    ensures |r| == 10 && forall i :: 0 <= i < |r| ==> r[i] < 0x80
  {
    Ascii("custom-") + Ascii("key")
  }

  function CustomValue(): (r: Bytes)
    ensures |r| == 12 && forall i :: 0 <= i < |r| ==> r[i] < 0x80
  {
    Ascii("custom-") + Ascii("value")
  }

  function Found(): (r: Bytes)
    ensures |r| == 3 && forall i :: 0 <= i < |r| ==> r[i] < 0x80
  {
    Ascii("302")
  }

  function Redirect(): (r: Bytes)
    ensures |r| == 3 && forall i :: 0 <= i < |r| ==> r[i] < 0x80
  {
    Ascii("307")
  }

  function Private(): (r: Bytes)
    ensures |r| == 7 && forall i :: 0 <= i < |r| ==> r[i] < 0x80
  {
    Ascii("private")
  }

  function Date21(): (r: Bytes)
    ensures |r| == 29 && forall i :: 0 <= i < |r| ==> r[i] < 0x80
  {
    Ascii("Mon, 21 ") + Ascii("Oct 2013") + Ascii(" 20:13:2") + Ascii("1 GMT")
  }

  function Date22(): (r: Bytes)
    ensures |r| == 29 && forall i :: 0 <= i < |r| ==> r[i] < 0x80
  {
    Ascii("Mon, 21 ") + Ascii("Oct 2013") + Ascii(" 20:13:2") + Ascii("2 GMT")
  }

  function Location(): (r: Bytes)
    ensures |r| == 23 && forall i :: 0 <= i < |r| ==> r[i] < 0x80
  {
    Ascii("https://") + Ascii("www.exam") + Ascii("ple.com")
  }

  function Gzip(): (r: Bytes)
    ensures |r| == 4 && forall i :: 0 <= i < |r| ==> r[i] < 0x80
  {
    Ascii("gzip")
  }

  function Cookie(): (r: Bytes)
    ensures |r| == 56 && forall i :: 0 <= i < |r| ==> r[i] < 0x80
  {
    Ascii("foo=A") + Ascii("SDJKHQ") + Ascii("KBZXOQ") + Ascii("WEOPIU") + Ascii("AXQWEO")
    + Ascii("IU; ma") + Ascii("x-age=") + Ascii("3600; ") + Ascii("version") + Ascii("=1")
  }

  // ----- codes -----

  function WwwCode(): (r: Bytes)
    ensures |r| == 12
  {
    [0xf1, 0xe3, 0xc2, 0xe5, 0xf2, 0x3a] + [0x6b, 0xa0, 0xab, 0x90, 0xf4] + [0xff]
  }

  function NoCacheCode(): (r: Bytes)
    ensures |r| == 6
  {
    [0xa8, 0xeb, 0x10, 0x64, 0x9c] + [0xbf]
  }

  function CustomKeyCode(): (r: Bytes)
    ensures |r| == 8
  {
    [0x25, 0xa8, 0x49, 0xe9] + [0x5b, 0xa9, 0x7d] + [0x7f]
  }

  function CustomValueCode(): (r: Bytes)
    ensures |r| == 9
  {
    [0x25, 0xa8, 0x49, 0xe9] + [0x5b, 0xb8, 0xe8, 0xb4] + [0xbf]
  }

  function FoundCode(): (r: Bytes)
    ensures |r| == 2
  {
    [0x64, 0x02]
  }

  function RedirectCode(): (r: Bytes)
    ensures |r| == 3
  {
    [0x64, 0x0e] + [0xff]
  }

  function PrivateCode(): (r: Bytes)
    ensures |r| == 5
  {
    [0xae, 0xc3, 0x77, 0x1a] + [0x4b]
  }

  function Date21Code(): (r: Bytes)
    ensures |r| == 22
  {
    [0xd0, 0x7a, 0xbe, 0x94, 0x10, 0x54] + [0xd4, 0x44, 0xa8, 0x20, 0x05] + [0x95, 0x04, 0x0b, 0x81, 0x66, 0xe0]
    + [0x82, 0xa6, 0x2d, 0x1b] + [0xff]
  }

  function Date22Code(): (r: Bytes)
    ensures |r| == 22
  {
    [0xd0, 0x7a, 0xbe, 0x94, 0x10, 0x54] + [0xd4, 0x44, 0xa8, 0x20, 0x05] + [0x95, 0x04, 0x0b, 0x81, 0x66, 0xe0]
    + [0x84, 0xa6, 0x2d, 0x1b] + [0xff]
  }

  function LocationCode(): (r: Bytes)
    ensures |r| == 17
  {
    [0x9d, 0x29, 0xad, 0x17, 0x18] + [0x63, 0xc7, 0x8f, 0x0b, 0x97, 0xc8, 0xe9] + [0xae, 0x82, 0xae, 0x43] + [0xd3]
  }

  function GzipCode(): (r: Bytes)
    ensures |r| == 3
  {
    [0x9b, 0xd9, 0xab]
  }

  function CookieCode(): (r: Bytes)
    ensures |r| == 45
  {
    [0x94, 0xe7, 0x82] + [0x1d, 0xd7, 0xf2, 0xe6, 0xc7] + [0xb3, 0x35, 0xdf, 0xdf, 0xcd, 0x5b]
    + [0x39, 0x60, 0xd5, 0xaf, 0x27] + [0x08, 0x7f, 0x36, 0x72, 0xc1] + [0xab, 0x27, 0x0f, 0xb5, 0x29]
    + [0x1f, 0x95, 0x87, 0x31, 0x60] + [0x65, 0xc0, 0x03, 0xed] + [0x4e, 0xe5, 0xb1, 0x06, 0x3d] + [0x50] + [0x07]
  }

  // ----- how the codes come about -----

  const WWW_1: Trace :=
    In(0x77, 0x78, 7, 0x78, 7, Through(0x77, 0x78, 7, 0xf1, 0x38, 6, Through(0x77, 0x78, 7, 0xe3, 0x18, 5,
    Through(0x2e, 0x17, 6, 0xc2, 0x7, 3, Through(0x65, 0x5, 5, 0xe5, 0x0, 0, In(0x78, 0x79, 7, 0x79, 7, Through(0x61,
    0x3, 5, 0xf2, 0x3, 4, Through(0x6d, 0x29, 6, 0x3a, 0x1, 2, Done))))))))

  const WWW_2: Trace :=
    Through(0x70, 0x2b, 6, 0x6b, 0x0, 0, In(0x6c, 0x28, 6, 0x28, 6, Through(0x65, 0x5, 5, 0xa0, 0x5, 3, Through(0x2e,
    0x17, 6, 0xab, 0x1, 1, In(0x63, 0x4, 5, 0x24, 6, Through(0x6f, 0x7, 5, 0x90, 0x7, 3, Through(0x6d, 0x29, 6, 0xf4,
    0x1, 1, Done)))))))

  const NOCACHE: Trace :=
    In(0x6e, 0x2a, 6, 0x2a, 6, Through(0x6f, 0x7, 5, 0xa8, 0x7, 3, Through(0x2d, 0x16, 6, 0xeb, 0x0, 1, In(0x63, 0x4,
    5, 0x4, 6, Through(0x61, 0x3, 5, 0x10, 0x3, 3, Through(0x63, 0x4, 5, 0x64, 0x0, 0, In(0x68, 0x27, 6, 0x27, 6,
    Through(0x65, 0x5, 5, 0x9c, 0x5, 3, Done))))))))

  const CUSTOMKEY_1: Trace :=
    In(0x63, 0x4, 5, 0x4, 5, Through(0x75, 0x2d, 6, 0x25, 0x5, 3, Through(0x73, 0x8, 5, 0xa8, 0x0, 0, In(0x74, 0x9,
    5, 0x9, 5, Through(0x6f, 0x7, 5, 0x49, 0x3, 2, Through(0x6d, 0x29, 6, 0xe9, 0x0, 0, In(0x2d, 0x16, 6, 0x16, 6,
    Done)))))))

  const CUSTOMKEY_2: Trace :=
    Through(0x6b, 0x75, 7, 0x5b, 0x15, 5, Through(0x65, 0x5, 5, 0xa9, 0x1, 2, Through(0x79, 0x7a, 7, 0x7d, 0x0, 1,
    Done)))

  const CUSTOMVALUE_2: Trace :=
    Through(0x76, 0x77, 7, 0x5b, 0x17, 5, Through(0x61, 0x3, 5, 0xb8, 0x3, 2, Through(0x6c, 0x28, 6, 0xe8, 0x0, 0,
    In(0x75, 0x2d, 6, 0x2d, 6, Through(0x65, 0x5, 5, 0xb4, 0x5, 3, Done)))))

  const FOUND: Trace :=
    In(0x33, 0x19, 6, 0x19, 6, Through(0x30, 0x0, 5, 0x64, 0x0, 3, Through(0x32, 0x2, 5, 0x2, 0x0, 0, Done)))

  const REDIRECT: Trace :=
    In(0x33, 0x19, 6, 0x19, 6, Through(0x30, 0x0, 5, 0x64, 0x0, 3, Through(0x37, 0x1d, 6, 0xe, 0x1, 1, Done)))

  const PRIVATE: Trace :=
    In(0x70, 0x2b, 6, 0x2b, 6, Through(0x72, 0x2c, 6, 0xae, 0xc, 4, Through(0x69, 0x6, 5, 0xc3, 0x0, 1, Through(0x76,
    0x77, 7, 0x77, 0x0, 0, In(0x61, 0x3, 5, 0x3, 5, Through(0x74, 0x9, 5, 0x1a, 0x1, 2, In(0x65, 0x5, 5, 0x25, 7,
    Done)))))))

  const DATE21_1: Trace :=
    In(0x4d, 0x68, 7, 0x68, 7, Through(0x6f, 0x7, 5, 0xd0, 0x7, 4, Through(0x6e, 0x2a, 6, 0x7a, 0x2, 2, Through(0x2c,
    0xfa, 8, 0xbe, 0x2, 2, Through(0x20, 0x14, 6, 0x94, 0x0, 0, In(0x32, 0x2, 5, 0x2, 5, Through(0x31, 0x1, 5, 0x10,
    0x1, 2, Through(0x20, 0x14, 6, 0x54, 0x0, 0, Done))))))))

  const DATE21_2: Trace :=
    In(0x4f, 0x6a, 7, 0x6a, 7, Through(0x63, 0x4, 5, 0xd4, 0x4, 4, Through(0x74, 0x9, 5, 0x44, 0x1, 1, In(0x20, 0x14,
    6, 0x54, 7, Through(0x32, 0x2, 5, 0xa8, 0x2, 4, Through(0x30, 0x0, 5, 0x20, 0x0, 1, In(0x31, 0x1, 5, 0x1, 6,
    Through(0x33, 0x19, 6, 0x5, 0x9, 4, Done))))))))

  const DATE21_3: Trace :=
    Through(0x20, 0x14, 6, 0x95, 0x0, 2, In(0x32, 0x2, 5, 0x2, 7, Through(0x30, 0x0, 5, 0x4, 0x0, 4, Through(0x3a,
    0x5c, 7, 0xb, 0x4, 3, Through(0x31, 0x1, 5, 0x81, 0x0, 0, In(0x33, 0x19, 6, 0x19, 6, Through(0x3a, 0x5c, 7, 0x66,
    0x1c, 5, Through(0x32, 0x2, 5, 0xe0, 0x2, 2, Done))))))))

  const DATE21_4: Trace :=
    In(0x31, 0x1, 5, 0x41, 7, Through(0x20, 0x14, 6, 0x82, 0x14, 5, Through(0x47, 0x62, 7, 0xa6, 0x2, 4,
    Through(0x4d, 0x68, 7, 0x2d, 0x0, 3, Through(0x54, 0x6f, 7, 0x1b, 0x3, 2, Done)))))

  const DATE22_4: Trace :=
    In(0x32, 0x2, 5, 0x42, 7, Through(0x20, 0x14, 6, 0x84, 0x14, 5, Through(0x47, 0x62, 7, 0xa6, 0x2, 4,
    Through(0x4d, 0x68, 7, 0x2d, 0x0, 3, Through(0x54, 0x6f, 7, 0x1b, 0x3, 2, Done)))))

  const LOCATION_1: Trace :=
    In(0x68, 0x27, 6, 0x27, 6, Through(0x74, 0x9, 5, 0x9d, 0x1, 3, Through(0x74, 0x9, 5, 0x29, 0x0, 0, In(0x70, 0x2b,
    6, 0x2b, 6, Through(0x73, 0x8, 5, 0xad, 0x0, 3, Through(0x3a, 0x5c, 7, 0x17, 0x0, 2, Through(0x2f, 0x18, 6, 0x18,
    0x0, 0, In(0x2f, 0x18, 6, 0x18, 6, Done))))))))

  const LOCATION_2: Trace :=
    Through(0x77, 0x78, 7, 0x63, 0x18, 5, Through(0x77, 0x78, 7, 0xc7, 0x8, 4, Through(0x77, 0x78, 7, 0x8f, 0x0, 3,
    Through(0x2e, 0x17, 6, 0xb, 0x1, 1, In(0x65, 0x5, 5, 0x25, 6, Through(0x78, 0x79, 7, 0x97, 0x19, 5, Through(0x61,
    0x3, 5, 0xc8, 0x3, 2, Through(0x6d, 0x29, 6, 0xe9, 0x0, 0, Done))))))))

  const LOCATION_3: Trace :=
    In(0x70, 0x2b, 6, 0x2b, 6, Through(0x6c, 0x28, 6, 0xae, 0x8, 4, Through(0x65, 0x5, 5, 0x82, 0x1, 1, In(0x2e,
    0x17, 6, 0x57, 7, Through(0x63, 0x4, 5, 0xae, 0x4, 4, Through(0x6f, 0x7, 5, 0x43, 0x1, 1, In(0x6d, 0x29, 6, 0x69,
    7, Done)))))))

  const GZIP: Trace :=
    In(0x67, 0x26, 6, 0x26, 6, Through(0x7a, 0x7b, 7, 0x9b, 0x1b, 5, Through(0x69, 0x6, 5, 0xd9, 0x2, 2,
    Through(0x70, 0x2b, 6, 0xab, 0x0, 0, Done))))

  const COOKIE_1: Trace :=
    In(0x66, 0x25, 6, 0x25, 6, Through(0x6f, 0x7, 5, 0x94, 0x7, 3, Through(0x6f, 0x7, 5, 0xe7, 0x0, 0, In(0x3d, 0x20,
    6, 0x20, 6, Through(0x41, 0x21, 6, 0x82, 0x1, 4, Done)))))

  const COOKIE_2: Trace :=
    Through(0x53, 0x6e, 7, 0x1d, 0x6, 3, Through(0x44, 0x5f, 7, 0xd7, 0x3, 2, Through(0x4a, 0x65, 7, 0xf2, 0x1, 1,
    Through(0x4b, 0x66, 7, 0xe6, 0x0, 0, In(0x48, 0x63, 7, 0x63, 7, Through(0x51, 0x6c, 7, 0xc7, 0x2c, 6, Done))))))

  const COOKIE_3: Trace :=
    Through(0x4b, 0x66, 7, 0xb3, 0x6, 5, Through(0x42, 0x5d, 7, 0x35, 0xd, 4, Through(0x5a, 0xfd, 8, 0xdf, 0xd, 4,
    Through(0x58, 0xfc, 8, 0xdf, 0xc, 4, Through(0x4f, 0x6a, 7, 0xcd, 0x2, 3, Through(0x51, 0x6c, 7, 0x5b, 0x0, 2,
    Done))))))

  const COOKIE_4: Trace :=
    Through(0x57, 0x72, 7, 0x39, 0x0, 1, Through(0x45, 0x60, 7, 0x60, 0x0, 0, In(0x4f, 0x6a, 7, 0x6a, 7,
    Through(0x50, 0x6b, 7, 0xd5, 0x2b, 6, Through(0x49, 0x64, 7, 0xaf, 0x4, 5, Through(0x55, 0x70, 7, 0x27, 0x0, 4,
    Done))))))

  const COOKIE_5: Trace :=
    Through(0x41, 0x21, 6, 0x8, 0x1, 2, Through(0x58, 0xfc, 8, 0x7f, 0x0, 2, Through(0x51, 0x6c, 7, 0x36, 0x0, 1,
    Through(0x57, 0x72, 7, 0x72, 0x0, 0, In(0x45, 0x60, 7, 0x60, 7, Through(0x4f, 0x6a, 7, 0xc1, 0x2a, 6, Done))))))

  const COOKIE_6: Trace :=
    Through(0x49, 0x64, 7, 0xab, 0x4, 5, Through(0x55, 0x70, 7, 0x27, 0x0, 4, Through(0x3b, 0xfb, 8, 0xf, 0xb, 4,
    Through(0x20, 0x14, 6, 0xb5, 0x0, 2, Through(0x6d, 0x29, 6, 0x29, 0x0, 0, In(0x61, 0x3, 5, 0x3, 5, Done))))))

  const COOKIE_7: Trace :=
    Through(0x78, 0x79, 7, 0x1f, 0x9, 4, Through(0x2d, 0x16, 6, 0x95, 0x2, 2, In(0x61, 0x3, 5, 0x43, 7, Through(0x67,
    0x26, 6, 0x87, 0x6, 5, Through(0x65, 0x5, 5, 0x31, 0x1, 2, Through(0x3d, 0x20, 6, 0x60, 0x0, 0, Done))))))

  const COOKIE_8: Trace :=
    In(0x33, 0x19, 6, 0x19, 6, Through(0x36, 0x1c, 6, 0x65, 0xc, 4, Through(0x30, 0x0, 5, 0xc0, 0x0, 1, In(0x30, 0x0,
    5, 0x0, 6, Through(0x3b, 0xfb, 8, 0x3, 0x3b, 6, Through(0x20, 0x14, 6, 0xed, 0x4, 4, Done))))))

  const COOKIE_9: Trace :=
    Through(0x76, 0x77, 7, 0x4e, 0x7, 3, Through(0x65, 0x5, 5, 0xe5, 0x0, 0, In(0x72, 0x2c, 6, 0x2c, 6, Through(0x73,
    0x8, 5, 0xb1, 0x0, 3, Through(0x69, 0x6, 5, 0x6, 0x0, 0, In(0x6f, 0x7, 5, 0x7, 5, Through(0x6e, 0x2a, 6, 0x3d,
    0x2, 3, Done)))))))

  const COOKIE_10: Trace :=
    Through(0x3d, 0x20, 6, 0x50, 0x0, 1, In(0x31, 0x1, 5, 0x1, 6, Done))

  lemma {:induction false} WwwPart1()
    ensures Checked(WWW_1, 0x0, 0, Ascii("www.exam"), 0, [0xf1, 0xe3, 0xc2, 0xe5, 0xf2, 0x3a], 0, 0x1, 2)
  {
    assert Checks(WWW_1, 0x0, 0, Ascii("www.exam"), 0, [0xf1, 0xe3, 0xc2, 0xe5, 0xf2, 0x3a], 0, 0x1, 2);
  }

  lemma {:induction false} WwwPart2()
    ensures Checked(WWW_2, 0x1, 2, Ascii("ple.com"), 0, [0x6b, 0xa0, 0xab, 0x90, 0xf4], 0, 0x1, 1)
  {
    assert Checks(WWW_2, 0x1, 2, Ascii("ple.com"), 0, [0x6b, 0xa0, 0xab, 0x90, 0xf4], 0, 0x1, 1);
  }

  lemma {:induction false} NoCachePart()
    ensures Checked(NOCACHE, 0x0, 0, Ascii("no-cache"), 0, [0xa8, 0xeb, 0x10, 0x64, 0x9c], 0, 0x5, 3)
  {
    assert Checks(NOCACHE, 0x0, 0, Ascii("no-cache"), 0, [0xa8, 0xeb, 0x10, 0x64, 0x9c], 0, 0x5, 3);
  }

  lemma {:induction false} CustomKeyPart1()
    ensures Checked(CUSTOMKEY_1, 0x0, 0, Ascii("custom-"), 0, [0x25, 0xa8, 0x49, 0xe9], 0, 0x16, 6)
  {
    assert Checks(CUSTOMKEY_1, 0x0, 0, Ascii("custom-"), 0, [0x25, 0xa8, 0x49, 0xe9], 0, 0x16, 6);
  }

  lemma {:induction false} CustomKeyPart2()
    ensures Checked(CUSTOMKEY_2, 0x16, 6, Ascii("key"), 0, [0x5b, 0xa9, 0x7d], 0, 0x0, 1)
  {
    assert Checks(CUSTOMKEY_2, 0x16, 6, Ascii("key"), 0, [0x5b, 0xa9, 0x7d], 0, 0x0, 1);
  }

  lemma {:induction false} CustomValuePart2()
    ensures Checked(CUSTOMVALUE_2, 0x16, 6, Ascii("value"), 0, [0x5b, 0xb8, 0xe8, 0xb4], 0, 0x5, 3)
  {
    assert Checks(CUSTOMVALUE_2, 0x16, 6, Ascii("value"), 0, [0x5b, 0xb8, 0xe8, 0xb4], 0, 0x5, 3);
  }

  lemma {:induction false} FoundPart()
    ensures Checked(FOUND, 0x0, 0, Ascii("302"), 0, [0x64, 0x02], 0, 0x0, 0)
  {
    assert Checks(FOUND, 0x0, 0, Ascii("302"), 0, [0x64, 0x02], 0, 0x0, 0);
  }

  lemma {:induction false} RedirectPart()
    ensures Checked(REDIRECT, 0x0, 0, Ascii("307"), 0, [0x64, 0x0e], 0, 0x1, 1)
  {
    assert Checks(REDIRECT, 0x0, 0, Ascii("307"), 0, [0x64, 0x0e], 0, 0x1, 1);
  }

  lemma {:induction false} PrivatePart()
    ensures Checked(PRIVATE, 0x0, 0, Ascii("private"), 0, [0xae, 0xc3, 0x77, 0x1a], 0, 0x25, 7)
  {
    assert Checks(PRIVATE, 0x0, 0, Ascii("private"), 0, [0xae, 0xc3, 0x77, 0x1a], 0, 0x25, 7);
  }

  lemma {:induction false} Date21Part1()
    ensures Checked(DATE21_1, 0x0, 0, Ascii("Mon, 21 "), 0, [0xd0, 0x7a, 0xbe, 0x94, 0x10, 0x54], 0, 0x0, 0)
  {
    assert Checks(DATE21_1, 0x0, 0, Ascii("Mon, 21 "), 0, [0xd0, 0x7a, 0xbe, 0x94, 0x10, 0x54], 0, 0x0, 0);
  }

  lemma {:induction false} Date21Part2()
    ensures Checked(DATE21_2, 0x0, 0, Ascii("Oct 2013"), 0, [0xd4, 0x44, 0xa8, 0x20, 0x05], 0, 0x9, 4)
  {
    assert Checks(DATE21_2, 0x0, 0, Ascii("Oct 2013"), 0, [0xd4, 0x44, 0xa8, 0x20, 0x05], 0, 0x9, 4);
  }

  lemma {:induction false} Date21Part3()
    ensures Checked(DATE21_3, 0x9, 4, Ascii(" 20:13:2"), 0, [0x95, 0x04, 0x0b, 0x81, 0x66, 0xe0], 0, 0x2, 2)
  {
    assert Checks(DATE21_3, 0x9, 4, Ascii(" 20:13:2"), 0, [0x95, 0x04, 0x0b, 0x81, 0x66, 0xe0], 0, 0x2, 2);
  }

  lemma {:induction false} Date21Part4()
    ensures Checked(DATE21_4, 0x2, 2, Ascii("1 GMT"), 0, [0x82, 0xa6, 0x2d, 0x1b], 0, 0x3, 2)
  {
    assert Checks(DATE21_4, 0x2, 2, Ascii("1 GMT"), 0, [0x82, 0xa6, 0x2d, 0x1b], 0, 0x3, 2);
  }

  lemma {:induction false} Date22Part4()
    ensures Checked(DATE22_4, 0x2, 2, Ascii("2 GMT"), 0, [0x84, 0xa6, 0x2d, 0x1b], 0, 0x3, 2)
  {
    assert Checks(DATE22_4, 0x2, 2, Ascii("2 GMT"), 0, [0x84, 0xa6, 0x2d, 0x1b], 0, 0x3, 2);
  }

  lemma {:induction false} LocationPart1()
    ensures Checked(LOCATION_1, 0x0, 0, Ascii("https://"), 0, [0x9d, 0x29, 0xad, 0x17, 0x18], 0, 0x18, 6)
  {
    assert Checks(LOCATION_1, 0x0, 0, Ascii("https://"), 0, [0x9d, 0x29, 0xad, 0x17, 0x18], 0, 0x18, 6);
  }

  lemma {:induction false} LocationPart2()
    ensures Checked(LOCATION_2, 0x18, 6, Ascii("www.exam"), 0, [0x63, 0xc7, 0x8f, 0x0b, 0x97, 0xc8, 0xe9], 0, 0x0, 0)
  {
    assert Checks(LOCATION_2, 0x18, 6, Ascii("www.exam"), 0, [0x63, 0xc7, 0x8f, 0x0b, 0x97, 0xc8, 0xe9], 0, 0x0, 0);
  }

  lemma {:induction false} LocationPart3()
    ensures Checked(LOCATION_3, 0x0, 0, Ascii("ple.com"), 0, [0xae, 0x82, 0xae, 0x43], 0, 0x69, 7)
  {
    assert Checks(LOCATION_3, 0x0, 0, Ascii("ple.com"), 0, [0xae, 0x82, 0xae, 0x43], 0, 0x69, 7);
  }

  lemma {:induction false} GzipPart()
    ensures Checked(GZIP, 0x0, 0, Ascii("gzip"), 0, [0x9b, 0xd9, 0xab], 0, 0x0, 0)
  {
    assert Checks(GZIP, 0x0, 0, Ascii("gzip"), 0, [0x9b, 0xd9, 0xab], 0, 0x0, 0);
  }

  lemma {:induction false} CookiePart1()
    ensures Checked(COOKIE_1, 0x0, 0, Ascii("foo=A"), 0, [0x94, 0xe7, 0x82], 0, 0x1, 4)
  {
    assert Checks(COOKIE_1, 0x0, 0, Ascii("foo=A"), 0, [0x94, 0xe7, 0x82], 0, 0x1, 4);
  }

  lemma {:induction false} CookiePart2()
    ensures Checked(COOKIE_2, 0x1, 4, Ascii("SDJKHQ"), 0, [0x1d, 0xd7, 0xf2, 0xe6, 0xc7], 0, 0x2c, 6)
  {
    assert Checks(COOKIE_2, 0x1, 4, Ascii("SDJKHQ"), 0, [0x1d, 0xd7, 0xf2, 0xe6, 0xc7], 0, 0x2c, 6);
  }

  lemma {:induction false} CookiePart3()
    ensures Checked(COOKIE_3, 0x2c, 6, Ascii("KBZXOQ"), 0, [0xb3, 0x35, 0xdf, 0xdf, 0xcd, 0x5b], 0, 0x0, 2)
  {
    assert Checks(COOKIE_3, 0x2c, 6, Ascii("KBZXOQ"), 0, [0xb3, 0x35, 0xdf, 0xdf, 0xcd, 0x5b], 0, 0x0, 2);
  }

  lemma {:induction false} CookiePart4()
    ensures Checked(COOKIE_4, 0x0, 2, Ascii("WEOPIU"), 0, [0x39, 0x60, 0xd5, 0xaf, 0x27], 0, 0x0, 4)
  {
    assert Checks(COOKIE_4, 0x0, 2, Ascii("WEOPIU"), 0, [0x39, 0x60, 0xd5, 0xaf, 0x27], 0, 0x0, 4);
  }

  lemma {:induction false} CookiePart5()
    ensures Checked(COOKIE_5, 0x0, 4, Ascii("AXQWEO"), 0, [0x08, 0x7f, 0x36, 0x72, 0xc1], 0, 0x2a, 6)
  {
    assert Checks(COOKIE_5, 0x0, 4, Ascii("AXQWEO"), 0, [0x08, 0x7f, 0x36, 0x72, 0xc1], 0, 0x2a, 6);
  }

  lemma {:induction false} CookiePart6()
    ensures Checked(COOKIE_6, 0x2a, 6, Ascii("IU; ma"), 0, [0xab, 0x27, 0x0f, 0xb5, 0x29], 0, 0x3, 5)
  {
    assert Checks(COOKIE_6, 0x2a, 6, Ascii("IU; ma"), 0, [0xab, 0x27, 0x0f, 0xb5, 0x29], 0, 0x3, 5);
  }

  lemma {:induction false} CookiePart7()
    ensures Checked(COOKIE_7, 0x3, 5, Ascii("x-age="), 0, [0x1f, 0x95, 0x87, 0x31, 0x60], 0, 0x0, 0)
  {
    assert Checks(COOKIE_7, 0x3, 5, Ascii("x-age="), 0, [0x1f, 0x95, 0x87, 0x31, 0x60], 0, 0x0, 0);
  }

  lemma {:induction false} CookiePart8()
    ensures Checked(COOKIE_8, 0x0, 0, Ascii("3600; "), 0, [0x65, 0xc0, 0x03, 0xed], 0, 0x4, 4)
  {
    assert Checks(COOKIE_8, 0x0, 0, Ascii("3600; "), 0, [0x65, 0xc0, 0x03, 0xed], 0, 0x4, 4);
  }

  lemma {:induction false} CookiePart9()
    ensures Checked(COOKIE_9, 0x4, 4, Ascii("version"), 0, [0x4e, 0xe5, 0xb1, 0x06, 0x3d], 0, 0x2, 3)
  {
    assert Checks(COOKIE_9, 0x4, 4, Ascii("version"), 0, [0x4e, 0xe5, 0xb1, 0x06, 0x3d], 0, 0x2, 3);
  }

  lemma {:induction false} CookiePart10()
    ensures Checked(COOKIE_10, 0x2, 3, Ascii("=1"), 0, [0x50], 0, 0x1, 6)
  {
    assert Checks(COOKIE_10, 0x2, 3, Ascii("=1"), 0, [0x50], 0, 0x1, 6);
  }

  lemma {:induction false} WwwIsCoded(t: seq<Row>)
    requires InRange(t) && t == HUFFMAN
    ensures HuffmanEncode(t, Www()) == WwwCode()
  {
    WwwPart1();
    Traced(t, WWW_1, 0x0, 0, Ascii("www.exam"), [0xf1, 0xe3, 0xc2, 0xe5, 0xf2, 0x3a], 0x1, 2);
    var s, o := Ascii("www.exam"), [0xf1, 0xe3, 0xc2, 0xe5, 0xf2, 0x3a];
    WwwPart2();
    Traced(t, WWW_2, 0x1, 2, Ascii("ple.com"), [0x6b, 0xa0, 0xab, 0x90, 0xf4], 0x1, 1);
    GoesOn(t, 0, 0, s, o, 0x1, 2, Ascii("ple.com"), [0x6b, 0xa0, 0xab, 0x90, 0xf4], 0x1, 1);
    s, o := s + Ascii("ple.com"), o + [0x6b, 0xa0, 0xab, 0x90, 0xf4];
    CodeIs(t, s, o, 0x1, 1, 0xff);
  }

  lemma {:induction false} NoCacheIsCoded(t: seq<Row>)
    requires InRange(t) && t == HUFFMAN
    ensures HuffmanEncode(t, NoCache()) == NoCacheCode()
  {
    NoCachePart();
    Traced(t, NOCACHE, 0x0, 0, Ascii("no-cache"), [0xa8, 0xeb, 0x10, 0x64, 0x9c], 0x5, 3);
    var s, o := Ascii("no-cache"), [0xa8, 0xeb, 0x10, 0x64, 0x9c];
    CodeIs(t, s, o, 0x5, 3, 0xbf);
  }

  lemma {:induction false} CustomKeyIsCoded(t: seq<Row>)
    requires InRange(t) && t == HUFFMAN
    ensures HuffmanEncode(t, CustomKey()) == CustomKeyCode()
  {
    CustomKeyPart1();
    Traced(t, CUSTOMKEY_1, 0x0, 0, Ascii("custom-"), [0x25, 0xa8, 0x49, 0xe9], 0x16, 6);
    var s, o := Ascii("custom-"), [0x25, 0xa8, 0x49, 0xe9];
    CustomKeyPart2();
    Traced(t, CUSTOMKEY_2, 0x16, 6, Ascii("key"), [0x5b, 0xa9, 0x7d], 0x0, 1);
    GoesOn(t, 0, 0, s, o, 0x16, 6, Ascii("key"), [0x5b, 0xa9, 0x7d], 0x0, 1);
    s, o := s + Ascii("key"), o + [0x5b, 0xa9, 0x7d];
    CodeIs(t, s, o, 0x0, 1, 0x7f);
  }

  lemma {:induction false} CustomValueIsCoded(t: seq<Row>)
    requires InRange(t) && t == HUFFMAN
    ensures HuffmanEncode(t, CustomValue()) == CustomValueCode()
  {
    CustomKeyPart1();
    Traced(t, CUSTOMKEY_1, 0x0, 0, Ascii("custom-"), [0x25, 0xa8, 0x49, 0xe9], 0x16, 6);
    var s, o := Ascii("custom-"), [0x25, 0xa8, 0x49, 0xe9];
    CustomValuePart2();
    Traced(t, CUSTOMVALUE_2, 0x16, 6, Ascii("value"), [0x5b, 0xb8, 0xe8, 0xb4], 0x5, 3);
    GoesOn(t, 0, 0, s, o, 0x16, 6, Ascii("value"), [0x5b, 0xb8, 0xe8, 0xb4], 0x5, 3);
    s, o := s + Ascii("value"), o + [0x5b, 0xb8, 0xe8, 0xb4];
    CodeIs(t, s, o, 0x5, 3, 0xbf);
  }

  lemma {:induction false} FoundIsCoded(t: seq<Row>)
    requires InRange(t) && t == HUFFMAN
    ensures HuffmanEncode(t, Found()) == FoundCode()
  {
    FoundPart();
    Traced(t, FOUND, 0x0, 0, Ascii("302"), [0x64, 0x02], 0x0, 0);
    var s, o := Ascii("302"), [0x64, 0x02];
    CodeIsWhole(t, s, o);
  }

  lemma {:induction false} RedirectIsCoded(t: seq<Row>)
    requires InRange(t) && t == HUFFMAN
    ensures HuffmanEncode(t, Redirect()) == RedirectCode()
  {
    RedirectPart();
    Traced(t, REDIRECT, 0x0, 0, Ascii("307"), [0x64, 0x0e], 0x1, 1);
    var s, o := Ascii("307"), [0x64, 0x0e];
    CodeIs(t, s, o, 0x1, 1, 0xff);
  }

  lemma {:induction false} PrivateIsCoded(t: seq<Row>)
    requires InRange(t) && t == HUFFMAN
    ensures HuffmanEncode(t, Private()) == PrivateCode()
  {
    PrivatePart();
    Traced(t, PRIVATE, 0x0, 0, Ascii("private"), [0xae, 0xc3, 0x77, 0x1a], 0x25, 7);
    var s, o := Ascii("private"), [0xae, 0xc3, 0x77, 0x1a];
    CodeIs(t, s, o, 0x25, 7, 0x4b);
  }

  lemma {:induction false} Date21IsCoded(t: seq<Row>)
    requires InRange(t) && t == HUFFMAN
    ensures HuffmanEncode(t, Date21()) == Date21Code()
  {
    Date21Part1();
    Traced(t, DATE21_1, 0x0, 0, Ascii("Mon, 21 "), [0xd0, 0x7a, 0xbe, 0x94, 0x10, 0x54], 0x0, 0);
    var s, o := Ascii("Mon, 21 "), [0xd0, 0x7a, 0xbe, 0x94, 0x10, 0x54];
    Date21Part2();
    Traced(t, DATE21_2, 0x0, 0, Ascii("Oct 2013"), [0xd4, 0x44, 0xa8, 0x20, 0x05], 0x9, 4);
    GoesOn(t, 0, 0, s, o, 0x0, 0, Ascii("Oct 2013"), [0xd4, 0x44, 0xa8, 0x20, 0x05], 0x9, 4);
    s, o := s + Ascii("Oct 2013"), o + [0xd4, 0x44, 0xa8, 0x20, 0x05];
    Date21Part3();
    Traced(t, DATE21_3, 0x9, 4, Ascii(" 20:13:2"), [0x95, 0x04, 0x0b, 0x81, 0x66, 0xe0], 0x2, 2);
    GoesOn(t, 0, 0, s, o, 0x9, 4, Ascii(" 20:13:2"), [0x95, 0x04, 0x0b, 0x81, 0x66, 0xe0], 0x2, 2);
    s, o := s + Ascii(" 20:13:2"), o + [0x95, 0x04, 0x0b, 0x81, 0x66, 0xe0];
    Date21Part4();
    Traced(t, DATE21_4, 0x2, 2, Ascii("1 GMT"), [0x82, 0xa6, 0x2d, 0x1b], 0x3, 2);
    GoesOn(t, 0, 0, s, o, 0x2, 2, Ascii("1 GMT"), [0x82, 0xa6, 0x2d, 0x1b], 0x3, 2);
    s, o := s + Ascii("1 GMT"), o + [0x82, 0xa6, 0x2d, 0x1b];
    CodeIs(t, s, o, 0x3, 2, 0xff);
  }

  lemma {:induction false} Date22IsCoded(t: seq<Row>)
    requires InRange(t) && t == HUFFMAN
    ensures HuffmanEncode(t, Date22()) == Date22Code()
  {
    Date21Part1();
    Traced(t, DATE21_1, 0x0, 0, Ascii("Mon, 21 "), [0xd0, 0x7a, 0xbe, 0x94, 0x10, 0x54], 0x0, 0);
    var s, o := Ascii("Mon, 21 "), [0xd0, 0x7a, 0xbe, 0x94, 0x10, 0x54];
    Date21Part2();
    Traced(t, DATE21_2, 0x0, 0, Ascii("Oct 2013"), [0xd4, 0x44, 0xa8, 0x20, 0x05], 0x9, 4);
    GoesOn(t, 0, 0, s, o, 0x0, 0, Ascii("Oct 2013"), [0xd4, 0x44, 0xa8, 0x20, 0x05], 0x9, 4);
    s, o := s + Ascii("Oct 2013"), o + [0xd4, 0x44, 0xa8, 0x20, 0x05];
    Date21Part3();
    Traced(t, DATE21_3, 0x9, 4, Ascii(" 20:13:2"), [0x95, 0x04, 0x0b, 0x81, 0x66, 0xe0], 0x2, 2);
    GoesOn(t, 0, 0, s, o, 0x9, 4, Ascii(" 20:13:2"), [0x95, 0x04, 0x0b, 0x81, 0x66, 0xe0], 0x2, 2);
    s, o := s + Ascii(" 20:13:2"), o + [0x95, 0x04, 0x0b, 0x81, 0x66, 0xe0];
    Date22Part4();
    Traced(t, DATE22_4, 0x2, 2, Ascii("2 GMT"), [0x84, 0xa6, 0x2d, 0x1b], 0x3, 2);
    GoesOn(t, 0, 0, s, o, 0x2, 2, Ascii("2 GMT"), [0x84, 0xa6, 0x2d, 0x1b], 0x3, 2);
    s, o := s + Ascii("2 GMT"), o + [0x84, 0xa6, 0x2d, 0x1b];
    CodeIs(t, s, o, 0x3, 2, 0xff);
  }

  lemma {:induction false} LocationIsCoded(t: seq<Row>)
    requires InRange(t) && t == HUFFMAN
    ensures HuffmanEncode(t, Location()) == LocationCode()
  {
    LocationPart1();
    Traced(t, LOCATION_1, 0x0, 0, Ascii("https://"), [0x9d, 0x29, 0xad, 0x17, 0x18], 0x18, 6);
    var s, o := Ascii("https://"), [0x9d, 0x29, 0xad, 0x17, 0x18];
    LocationPart2();
    Traced(t, LOCATION_2, 0x18, 6, Ascii("www.exam"), [0x63, 0xc7, 0x8f, 0x0b, 0x97, 0xc8, 0xe9], 0x0, 0);
    GoesOn(t, 0, 0, s, o, 0x18, 6, Ascii("www.exam"), [0x63, 0xc7, 0x8f, 0x0b, 0x97, 0xc8, 0xe9], 0x0, 0);
    s, o := s + Ascii("www.exam"), o + [0x63, 0xc7, 0x8f, 0x0b, 0x97, 0xc8, 0xe9];
    LocationPart3();
    Traced(t, LOCATION_3, 0x0, 0, Ascii("ple.com"), [0xae, 0x82, 0xae, 0x43], 0x69, 7);
    GoesOn(t, 0, 0, s, o, 0x0, 0, Ascii("ple.com"), [0xae, 0x82, 0xae, 0x43], 0x69, 7);
    s, o := s + Ascii("ple.com"), o + [0xae, 0x82, 0xae, 0x43];
    CodeIs(t, s, o, 0x69, 7, 0xd3);
  }

  lemma {:induction false} GzipIsCoded(t: seq<Row>)
    requires InRange(t) && t == HUFFMAN
    ensures HuffmanEncode(t, Gzip()) == GzipCode()
  {
    GzipPart();
    Traced(t, GZIP, 0x0, 0, Ascii("gzip"), [0x9b, 0xd9, 0xab], 0x0, 0);
    var s, o := Ascii("gzip"), [0x9b, 0xd9, 0xab];
    CodeIsWhole(t, s, o);
  }

  lemma {:induction false} CookieStarts(t: seq<Row>) returns (s: Bytes, o: Bytes)
    requires InRange(t) && t == HUFFMAN
    ensures Goes(t, 0, 0, s, o, 0x2a, 6)
    ensures s == Ascii("foo=A") + Ascii("SDJKHQ") + Ascii("KBZXOQ") + Ascii("WEOPIU") + Ascii("AXQWEO")
    ensures o == [0x94, 0xe7, 0x82] + [0x1d, 0xd7, 0xf2, 0xe6, 0xc7]
      + [0xb3, 0x35, 0xdf, 0xdf, 0xcd, 0x5b] + [0x39, 0x60, 0xd5, 0xaf, 0x27] + [0x08, 0x7f, 0x36, 0x72, 0xc1]
  {
    CookiePart1();
    Traced(t, COOKIE_1, 0x0, 0, Ascii("foo=A"), [0x94, 0xe7, 0x82], 0x1, 4);
    s, o := Ascii("foo=A"), [0x94, 0xe7, 0x82];
    CookiePart2();
    Traced(t, COOKIE_2, 0x1, 4, Ascii("SDJKHQ"), [0x1d, 0xd7, 0xf2, 0xe6, 0xc7], 0x2c, 6);
    GoesOn(t, 0, 0, s, o, 0x1, 4, Ascii("SDJKHQ"), [0x1d, 0xd7, 0xf2, 0xe6, 0xc7], 0x2c, 6);
    s, o := s + Ascii("SDJKHQ"), o + [0x1d, 0xd7, 0xf2, 0xe6, 0xc7];
    CookiePart3();
    Traced(t, COOKIE_3, 0x2c, 6, Ascii("KBZXOQ"), [0xb3, 0x35, 0xdf, 0xdf, 0xcd, 0x5b], 0x0, 2);
    GoesOn(t, 0, 0, s, o, 0x2c, 6, Ascii("KBZXOQ"), [0xb3, 0x35, 0xdf, 0xdf, 0xcd, 0x5b], 0x0, 2);
    s, o := s + Ascii("KBZXOQ"), o + [0xb3, 0x35, 0xdf, 0xdf, 0xcd, 0x5b];
    CookiePart4();
    Traced(t, COOKIE_4, 0x0, 2, Ascii("WEOPIU"), [0x39, 0x60, 0xd5, 0xaf, 0x27], 0x0, 4);
    GoesOn(t, 0, 0, s, o, 0x0, 2, Ascii("WEOPIU"), [0x39, 0x60, 0xd5, 0xaf, 0x27], 0x0, 4);
    s, o := s + Ascii("WEOPIU"), o + [0x39, 0x60, 0xd5, 0xaf, 0x27];
    CookiePart5();
    Traced(t, COOKIE_5, 0x0, 4, Ascii("AXQWEO"), [0x08, 0x7f, 0x36, 0x72, 0xc1], 0x2a, 6);
    GoesOn(t, 0, 0, s, o, 0x0, 4, Ascii("AXQWEO"), [0x08, 0x7f, 0x36, 0x72, 0xc1], 0x2a, 6);
    s, o := s + Ascii("AXQWEO"), o + [0x08, 0x7f, 0x36, 0x72, 0xc1];
  }

  lemma {:induction false} CookieIsCoded(t: seq<Row>)
    requires InRange(t) && t == HUFFMAN
    ensures HuffmanEncode(t, Cookie()) == CookieCode()
  {
    var s, o := CookieStarts(t);
    CookiePart6();
    Traced(t, COOKIE_6, 0x2a, 6, Ascii("IU; ma"), [0xab, 0x27, 0x0f, 0xb5, 0x29], 0x3, 5);
    GoesOn(t, 0, 0, s, o, 0x2a, 6, Ascii("IU; ma"), [0xab, 0x27, 0x0f, 0xb5, 0x29], 0x3, 5);
    s, o := s + Ascii("IU; ma"), o + [0xab, 0x27, 0x0f, 0xb5, 0x29];
    CookiePart7();
    Traced(t, COOKIE_7, 0x3, 5, Ascii("x-age="), [0x1f, 0x95, 0x87, 0x31, 0x60], 0x0, 0);
    GoesOn(t, 0, 0, s, o, 0x3, 5, Ascii("x-age="), [0x1f, 0x95, 0x87, 0x31, 0x60], 0x0, 0);
    s, o := s + Ascii("x-age="), o + [0x1f, 0x95, 0x87, 0x31, 0x60];
    CookiePart8();
    Traced(t, COOKIE_8, 0x0, 0, Ascii("3600; "), [0x65, 0xc0, 0x03, 0xed], 0x4, 4);
    GoesOn(t, 0, 0, s, o, 0x0, 0, Ascii("3600; "), [0x65, 0xc0, 0x03, 0xed], 0x4, 4);
    s, o := s + Ascii("3600; "), o + [0x65, 0xc0, 0x03, 0xed];
    CookiePart9();
    Traced(t, COOKIE_9, 0x4, 4, Ascii("version"), [0x4e, 0xe5, 0xb1, 0x06, 0x3d], 0x2, 3);
    GoesOn(t, 0, 0, s, o, 0x4, 4, Ascii("version"), [0x4e, 0xe5, 0xb1, 0x06, 0x3d], 0x2, 3);
    s, o := s + Ascii("version"), o + [0x4e, 0xe5, 0xb1, 0x06, 0x3d];
    CookiePart10();
    Traced(t, COOKIE_10, 0x2, 3, Ascii("=1"), [0x50], 0x1, 6);
    GoesOn(t, 0, 0, s, o, 0x2, 3, Ascii("=1"), [0x50], 0x1, 6);
    s, o := s + Ascii("=1"), o + [0x50];
    CodeIs(t, s, o, 0x1, 6, 0x07);
  }
}
