/** The formats of the digested records, spelled out. */
module RecordFormats {
  import opened Bytes
  import opened Digests

  /** Plain text as bytes. */
  function Ascii(s: string): seq<Byte>
    requires forall i :: 0 <= i < |s| ==> s[i] < 128 as char
  {
    seq(|s|, i requires 0 <= i < |s| => s[i] as int)
  }

  /** A numeral has no leading zero, unless it is zero. */
  lemma {:induction false} NoLeadingZero(n: nat)
    ensures |Decimal(n)| > 0 && (n > 0 ==> Decimal(n)[0] != 48)
    ensures Decimal(0) == [48]
  {
    if n >= 10 {
      NoLeadingZero(n / 10);
    }
  }

  lemma SomeNumerals()
    ensures Numeral(4) == Ascii("4") && Numeral(2) == Ascii("2") && Numeral(7) == Ascii("7")
    ensures Numeral(12) == Ascii("12") && Numeral(-350) == Ascii("-350")
  {
    assert Decimal(1) == [49] && Decimal(12) == Decimal(1) + [50];
    assert Decimal(3) == [51] && Decimal(35) == Decimal(3) + [53] && Decimal(350) == Decimal(35) + [48];
  }

  /** A file's record: a mark, the length of its name, the name, its size, and its bytes. */
  lemma ContentRecord()
    ensures Framed(Entry(Ascii("a.py"), 12, Ascii("x = 1\n")), []) == Ascii("f4:a.py12:x = 1\n")
  {
    SomeNumerals();
    hide Numeral;
    assert |Ascii("a.py")| == 4;
  }

  /** A stat record: the path, the inode, the size and the time, each followed by a colon. */
  lemma StatRecord()
    ensures StatFramed(Stat(Ascii("a.py"), 7, 12, -350), []) == Ascii("a.py:7:12:-350:")
  {
    SomeNumerals();
    hide Numeral;
  }

  /** A source file's record announces its name in code points and writes it in UTF-8: here the
      four code points of "\u00E9.py", and the two bytes of "hi". */
  lemma SourceRecord()
    ensures SourceFramed(Source([0xE9, 46, 112, 121], [104, 105]), [])
         == [102, 52, 58, 0xC3, 0xA9, 46, 112, 121, 50, 58, 104, 105]
  {
    NameBytes();
    assert Numeral(4) == [52] && Numeral(2) == [50];
    hide Numeral, Utf8;
    assert Field(2, [104, 105] + []) == [50, 58, 104, 105];
  }

  lemma NameBytes()
    ensures Utf8([0xE9, 46, 112, 121]) == [0xC3, 0xA9, 46, 112, 121]
  {
    var name: seq<CodePoint> := [0xE9, 46, 112, 121];
    assert name[1..] == [46, 112, 121] && name[1..][1..] == [112, 121] && name[1..][1..][1..] == [121];
    assert Utf8([121]) == [121] && Utf8([112, 121]) == [112] + Utf8([121]);
  }

  /** Code points of one to four bytes, at the ends of their ranges and inside. */
  lemma SomeCodePoints()
    ensures Encoded(0x41) == [0x41] && Encoded(0x7F) == [0x7F] && Encoded(0x80) == [0xC2, 0x80]
    ensures Encoded(0x7FF) == [0xDF, 0xBF] && Encoded(0x800) == [0xE0, 0xA0, 0x80]
    ensures Encoded(0x20AC) == [0xE2, 0x82, 0xAC] && Encoded(0xFFFF) == [0xEF, 0xBF, 0xBF]
    ensures Encoded(0x1_0000) == [0xF0, 0x90, 0x80, 0x80] && Encoded(0x1_F600) == [0xF0, 0x9F, 0x98, 0x80]
  {
  }
}
