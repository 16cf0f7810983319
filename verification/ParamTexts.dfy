/** The texts of camera/1_0/CameraParameters.cpp, character by character, for a few maps and sizes. */
module ParamTexts {
  import opened Basics
  import opened ParamMap
  import opened SizeText
  import opened CameraParams

  /** The keys of the three sizes. */
  lemma SizeKeys()
    ensures KEY_PREVIEW_SIZE == "preview-size" && KEY_VIDEO_SIZE == "video-size" && KEY_PICTURE_SIZE == "picture-size"
  {
  }

  lemma Decimals()
    ensures Decimal(640) == "640" && Decimal(480) == "480" && Decimal(7) == "7"
  {
    assert Decimal(6) == "6" && Decimal(4) == "4";
    assert Decimal(64) == "64" && Decimal(48) == "48";
  }

  /** How sizes are printed. */
  lemma SizeTexts()
    ensures PrintSize(Size(640, 480)) == "640x480" && PrintSize(Size(-7, 640)) == "-7x640"
    ensures PrintSize(Size(0, 7)) == "0x7"
    ensures JoinSizes([Size(640, 480), Size(7, 7)]) == "640x480,7x7"
  {
    Decimals();
    assert [Size(640, 480), Size(7, 7)][1..] == [Size(7, 7)];
    assert PrintSize(Size(7, 7)) == "7x7";
  }

  /** A list ends at the first malformed pair, and keeps the sizes before it. */
  lemma MalformedList()
    ensures SizesFrom("640x480,!") == [Size(640, 480)]
    ensures SizesFrom("640x480!") == []
  {
    hide Strtol, ParsePair;
    SizeTexts();
    ParsePrinted(Size(640, 480), ",!");
    ParsePrinted(Size(640, 480), "!");
    assert "640x480" + ",!" == "640x480,!" && "640x480" + "!" == "640x480!";
    NoPair();
    assert "640x480,!"[8..] == "!";
    SizesStep("640x480,!", Size(640, 480), 7);
  }

  lemma NoPair()
    ensures ParsePair("!", 'x') == None && SizesFrom("!") == []
  {
    assert SkipSpaces("!") == 0;
    assert "!"[0..] == "!" && DigitRun("!") == 0;
    assert Strtol("!") == (0, 0);
  }

  /** White space: the blank and the five control characters from tab to carriage return. */
  lemma WhiteSpace(c: char)
    ensures IsSpace(c) <==> c as int == 32 || 9 <= c as int <= 13
  {
  }

  /** `strtol` skips white space and takes a plus sign. */
  lemma SpacesAndSign(n: nat, tail: string)
    requires StopsDigits(tail) && n <= 0x8000_0000
    ensures Strtol(" \t+" + Decimal(n) + tail) == (n, 3 + |Decimal(n)|)
  {
    hide Decimal, DigitsValue, Number;
    var d := Decimal(n);
    var s := " \t+" + d + tail;
    assert s[1..][1..] == ['+'] + d + tail;
    assert SkipSpaces(s[1..][1..]) == 0 && SkipSpaces(s[1..]) == 1 && SkipSpaces(s) == 2;
    assert s[3..] == d + tail;
    NumberDigits(d, tail, false);
    DecimalValue(n);
  }

  /** A number that does not fit an `int` is taken modulo 2 to the 32. */
  lemma ToIntWraps(v: int)
    ensures (ToInt(v) - v) % 0x1_0000_0000 == 0
  {
  }

  /** How a map is printed. */
  lemma MapText()
    ensures Flatten([Entry("a", "1"), Entry("b", "2")]) == "a=1;b=2"
  {
    assert [Entry("a", "1"), Entry("b", "2")][1..] == [Entry("b", "2")];
    assert EntryText(Entry("a", "1")) == "a=1" && EntryText(Entry("b", "2")) == "b=2";
  }

  /** A text without `=` holds no pair. */
  lemma NoPairs(text: string)
    requires '=' !in text
    ensures Pairs(text) == []
  {
  }

  /**
    Parsing: up to the first `=` is a key, up to the next `;` its value, and parsing goes on
    behind it; without a `;` the value is the rest.
   */
  lemma PairsRead(k: string, v: string, more: string)
    requires '=' !in k && ';' !in v
    ensures Pairs(k + "=" + (v + ";" + more)) == [Entry(k, v)] + Pairs(more)
    ensures Pairs(k + "=" + v) == [Entry(k, v)]
  {
    hide Pairs;
    PairsMore(k, v, more);
    PairsLast(k, v);
  }

  /** Of several pairs with one key the last one counts, and keys without a pair keep their value. */
  lemma {:induction false} LastPairCounts(es: seq<Entry>, ps: seq<Entry>, q: string, i: nat)
    requires Sorted(es)
    ensures Sorted(AddAll(es, ps))
    ensures i < |ps| && ps[i].key == q && (forall j :: i < j < |ps| ==> ps[j].key != q) ==>
      Lookup(AddAll(es, ps), q) == Some(ps[i].value)
    ensures (forall j :: 0 <= j < |ps| ==> ps[j].key != q) ==> Lookup(AddAll(es, ps), q) == Lookup(es, q)
    decreases |ps|
  {
    if ps != [] {
      var next := Add(es, ps[0].key, ps[0].value);
      AddCorrect(es, ps[0].key, ps[0].value, "");
      assert ps == [ps[0]] + ps[1..];
      LastPairCounts(next, ps[1..], q, if i > 0 then i - 1 else 0);
    }
  }
}
