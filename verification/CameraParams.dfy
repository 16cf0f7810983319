/** The camera parameter object of camera/1_0/CameraParameters.cpp. */
module CameraParams {
  import opened Basics
  import opened ParamMap
  import opened SizeText

  const KEY_PREVIEW_SIZE := "preview-size"
  const KEY_VIDEO_SIZE := "video-size"
  const KEY_PICTURE_SIZE := "picture-size"

  // ---------------------------------------------------------------- reading

  /** `get`: an empty value counts as absent. */
  function Get(es: seq<Entry>, key: string): Option<string> {
    match Lookup(es, key)
    case None => None
    case Some(v) => if v == "" then None else Some(v)
  }

  /** The size getters: -1x-1 when the key is absent or its text is no pair. */
  function GetSize(es: seq<Entry>, key: string): Size {
    match Get(es, key)
    case None => Size(-1, -1)
    case Some(text) =>
      match ParsePair(text, 'x')
      case None => Size(-1, -1)
      case Some((z, _)) => z
  }

  /** The supported-size getters. */
  function GetSizes(es: seq<Entry>, key: string): seq<Size> {
    match Get(es, key)
    case None => []
    case Some(text) => SizesFrom(text)
  }

  /** A size is the pair in the text of its key; without a text, or with one that is no pair, it is -1x-1. */
  lemma GetSizeIs(es: seq<Entry>, key: string)
    ensures Lookup(es, key) == None || Lookup(es, key) == Some("") ==> GetSize(es, key) == Size(-1, -1)
    ensures Lookup(es, key).Some? && Lookup(es, key).value != "" && ParsePair(Lookup(es, key).value, 'x').None? ==>
      GetSize(es, key) == Size(-1, -1)
    ensures Lookup(es, key).Some? && Lookup(es, key).value != "" && ParsePair(Lookup(es, key).value, 'x').Some? ==>
      GetSize(es, key) == ParsePair(Lookup(es, key).value, 'x').value.0
  {
    hide ParsePair;
  }

  // ---------------------------------------------------------------- sizes as values

  /** Digits, minus signs and the separators of size texts. */
  ghost predicate PlainText(s: string) {
    forall i :: 0 <= i < |s| ==> IsDigit(s[i]) || s[i] == '-' || s[i] == 'x' || s[i] == ','
  }

  lemma PlainAccepted(key: string, s: string)
    requires '=' !in key && ';' !in key && PlainText(s)
    ensures Accepted(key, s)
  {
  }

  lemma PrintIntPlain(v: int)
    ensures PlainText(PrintInt(v)) && PrintInt(v) != []
  {
  }

  lemma PrintSizePlain(z: Size)
    ensures PlainText(PrintSize(z)) && PrintSize(z) != []
  {
    PrintIntPlain(z.width);
    PrintIntPlain(z.height);
  }

  lemma {:induction false} JoinPlain(zs: seq<Size>)
    ensures PlainText(JoinSizes(zs)) && (zs != [] ==> JoinSizes(zs) != [])
  {
    hide PrintSize;
    if zs != [] {
      PrintSizePlain(zs[0]);
      JoinPlain(zs[1..]);
    }
  }

  function Pow10(k: nat): nat { if k == 0 then 1 else 10 * Pow10(k - 1) }

  lemma {:induction false} DecimalLength(n: nat, k: nat)
    requires k >= 1 && n < Pow10(k)
    ensures |Decimal(n)| <= k
  {
    if n >= 10 {
      DecimalLength(n / 10, k - 1);
    }
  }

  /** The text and its terminator fit the 32-byte buffers of the setters. */
  lemma PrintSizeFits(z: Size)
    ensures |PrintSize(z)| + 1 <= 32
  {
    assert Pow10(10) == 10_000_000_000 by { assert Pow10(5) == 100_000; }
    DecimalLength(Abs(z.width), 10);
    DecimalLength(Abs(z.height), 10);
  }

  /** A stored size is read back for every pair of 32-bit ints, and other keys keep theirs. */
  lemma SizeReadBack(es: seq<Entry>, key: string, z: Size, other: string)
    requires Sorted(es)
    ensures GetSize(Add(es, key, PrintSize(z)), key) == z
    ensures other != key ==> GetSize(Add(es, key, PrintSize(z)), other) == GetSize(es, other)
  {
    hide Strtol, ParsePair, PrintSize;
    AddCorrect(es, key, PrintSize(z), "");
    PrintSizePlain(z);
    ParsePrinted(z, "");
    assert PrintSize(z) + "" == PrintSize(z);
  }

  /** A stored list of sizes is read back, the empty list included. */
  lemma SizesReadBack(es: seq<Entry>, key: string, zs: seq<Size>)
    requires Sorted(es)
    ensures GetSizes(Add(es, key, JoinSizes(zs)), key) == zs
  {
    hide JoinSizes, SizesFrom;
    AddCorrect(es, key, JoinSizes(zs), "");
    JoinPlain(zs);
    if zs == [] {
      assert JoinSizes([]) == "" by { EmptyJoin(); }
    } else {
      SizesRoundTrip(zs);
    }
  }

  lemma EmptyJoin()
    ensures JoinSizes([]) == ""
  {
  }

  // ---------------------------------------------------------------- the object

  class CameraParameters {
    var mMap: seq<Entry>

    ghost predicate Valid()
      reads this
    {
      Good(mMap)
    }

    constructor ()
      ensures Valid() && mMap == Run([])
    {
      mMap := [];
    }

    /** `flatten`: a separator after every entry but the last. */
    method FlattenText() returns (text: string)
      ensures text == Flatten(mMap)
      ensures Valid() ==> Unflatten(text) == mMap
    {
      hide Flatten;
      text := "";
      assert mMap[0..] == mMap;
      var n := |mMap|;
      var i := 0;
      while i < n
        invariant 0 <= i <= n
        invariant text + Flatten(mMap[i..]) == Flatten(mMap)
      {
        ghost var tail := mMap[i..];
        assert tail[1..] == mMap[i + 1..] && tail[0] == mMap[i];
        FlattenStep(text, tail);
        text := text + mMap[i].key + "=" + mMap[i].value;
        if i != n - 1 {
          text := text + ";";
        }
        i := i + 1;
      }
      assert mMap[n..] == [];
      FlattenNone();
      if Valid() { RoundTripIff(mMap); }
    }

    /** `unflatten` */
    method UnflattenText(params: string)
      modifies this
      ensures Valid() && mMap == Apply(old(mMap), UnflattenOp(params))
    {
      var a := params;
      mMap := [];
      while true
        invariant AddAll(mMap, Pairs(a)) == Unflatten(params)
        invariant Valid()
        decreases |a|
      {
        var b := Find(a, '=');
        if b == |a| {
          break;
        }
        FindPrefix(a, '=');
        var k := a[..b];
        a := a[b + 1..];
        b := Find(a, ';');
        FindPrefix(a, ';');
        AddKeeps(mMap, k, a[..b]);
        mMap := Add(mMap, k, a[..b]);
        if b == |a| {
          break;
        }
        a := a[b + 1..];
      }
    }

    /** `set` */
    method Set(key: string, value: string)
      requires Valid()
      modifies this
      ensures Valid() && mMap == Apply(old(mMap), SetOp(key, value))
      ensures '=' in key || ';' in key || '=' in value || ';' in value ==> mMap == old(mMap)
      ensures '=' !in key && ';' !in key && '=' !in value && ';' !in value ==>
        forall q :: Lookup(mMap, q) == if q == key then Some(value) else Lookup(old(mMap), q)
    {
      ApplyKeeps(mMap, SetOp(key, value));
      AddCorrect(mMap, key, value, "");
      if '=' in key || ';' in key {
        return;
      }
      if '=' in value || ';' in value {
        return;
      }
      mMap := Add(mMap, key, value);
    }

    /** `remove` */
    method RemoveKey(key: string)
      requires Valid()
      modifies this
      ensures Valid() && mMap == Apply(old(mMap), RemoveOp(key))
      ensures forall q :: Lookup(mMap, q) == if q == key then None else Lookup(old(mMap), q)
    {
      ApplyKeeps(mMap, RemoveOp(key));
      RemoveCorrect(mMap, key);
      mMap := Remove(mMap, key);
    }

    /** What all three size setters do with their key. */
    method SetSize(key: string, z: Size)
      requires Valid() && '=' !in key && ';' !in key
      modifies this
      ensures Valid() && mMap == Apply(old(mMap), SetOp(key, PrintSize(z)))
      ensures GetSize(mMap, key) == z
      ensures forall q :: q != key ==> GetSize(mMap, q) == GetSize(old(mMap), q)
    {
      PrintSizePlain(z);
      PlainAccepted(key, PrintSize(z));
      forall q ensures GetSize(Add(mMap, key, PrintSize(z)), key) == z
        && (q != key ==> GetSize(Add(mMap, key, PrintSize(z)), q) == GetSize(mMap, q))
      {
        SizeReadBack(mMap, key, z, q);
      }
      Set(key, PrintSize(z));
    }

    /** `setPreviewSize` then `getPreviewSize`, and the two others unchanged. */
    method SetPreviewSize(w: Int32, h: Int32)
      requires Valid()
      modifies this
      ensures Valid() && GetSize(mMap, KEY_PREVIEW_SIZE) == Size(w, h)
      ensures GetSize(mMap, KEY_VIDEO_SIZE) == GetSize(old(mMap), KEY_VIDEO_SIZE)
      ensures GetSize(mMap, KEY_PICTURE_SIZE) == GetSize(old(mMap), KEY_PICTURE_SIZE)
    {
      SetSize(KEY_PREVIEW_SIZE, Size(w, h));
    }

    /** `setVideoSize` */
    method SetVideoSize(w: Int32, h: Int32)
      requires Valid()
      modifies this
      ensures Valid() && GetSize(mMap, KEY_VIDEO_SIZE) == Size(w, h)
      ensures GetSize(mMap, KEY_PREVIEW_SIZE) == GetSize(old(mMap), KEY_PREVIEW_SIZE)
      ensures GetSize(mMap, KEY_PICTURE_SIZE) == GetSize(old(mMap), KEY_PICTURE_SIZE)
    {
      SetSize(KEY_VIDEO_SIZE, Size(w, h));
    }

    /** `setPictureSize` */
    method SetPictureSize(w: Int32, h: Int32)
      requires Valid()
      modifies this
      ensures Valid() && GetSize(mMap, KEY_PICTURE_SIZE) == Size(w, h)
      ensures GetSize(mMap, KEY_PREVIEW_SIZE) == GetSize(old(mMap), KEY_PREVIEW_SIZE)
      ensures GetSize(mMap, KEY_VIDEO_SIZE) == GetSize(old(mMap), KEY_VIDEO_SIZE)
    {
      SetSize(KEY_PICTURE_SIZE, Size(w, h));
    }
  }
}
