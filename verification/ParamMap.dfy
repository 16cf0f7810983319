/**
  The parameter map of camera/1_0/CameraParameters.cpp and its text form
  `key=value;key=value`.  The map is the sorted vector of pairs the source iterates over;
  strings are C strings without their terminator.
 */
module ParamMap {
  import opened Basics

  datatype Entry = Entry(key: string, value: string)

  // ---------------------------------------------------------------- string order

  /** Strict lexicographic order, shorter prefix first. */
  predicate StrLess(a: string, b: string) {
    b != [] && (a == [] || a[0] < b[0] || (a[0] == b[0] && StrLess(a[1..], b[1..])))
  }

  lemma {:induction false} StrLessTotal(a: string, b: string)
    ensures StrLess(a, b) || a == b || StrLess(b, a)
  {
    if a != [] && b != [] && a[0] == b[0] {
      StrLessTotal(a[1..], b[1..]);
      assert a[1..] == b[1..] ==> a == b by {
        assert a == [a[0]] + a[1..] && b == [b[0]] + b[1..];
      }
    }
  }

  lemma {:induction false} StrLessTrans(a: string, b: string, c: string)
    requires StrLess(a, b) && StrLess(b, c)
    ensures StrLess(a, c)
  {
    if a != [] && b != [] && c != [] && a[0] == b[0] == c[0] {
      StrLessTrans(a[1..], b[1..], c[1..]);
    }
  }

  lemma {:induction false} StrLessIrreflexive(a: string)
    ensures !StrLess(a, a)
  {
    if a != [] { StrLessIrreflexive(a[1..]); }
  }

  /** A text comes before another if it is a beginning of it, or has a smaller character where they first differ. */
  lemma {:induction false} StrLessIs(a: string, b: string, n: nat)
    requires n <= |a| && n < |b| && a[..n] == b[..n] && (n == |a| || a[n] != b[n])
    ensures StrLess(a, b) <==> n == |a| || a[n] < b[n]
  {
    if n > 0 {
      assert a[0] == a[..n][0] && b[0] == b[..n][0];
      assert a[1..][..n - 1] == a[..n][1..] && b[1..][..n - 1] == b[..n][1..];
      StrLessIs(a[1..], b[1..], n - 1);
    }
  }

  // ---------------------------------------------------------------- the sorted vector

  ghost predicate Sorted(es: seq<Entry>) {
    forall i, j :: 0 <= i < j < |es| ==> StrLess(es[i].key, es[j].key)
  }

  /** `KeyedVector::add` and `replaceValueFor`: insert in order, or replace. */
  function Add(es: seq<Entry>, k: string, v: string): seq<Entry> {
    if es == [] then [Entry(k, v)]
    else if es[0].key == k then [Entry(k, v)] + es[1..]
    else if StrLess(k, es[0].key) then [Entry(k, v)] + es
    else [es[0]] + Add(es[1..], k, v)
  }

  /** `KeyedVector::removeItem` */
  function Remove(es: seq<Entry>, k: string): seq<Entry> {
    if es == [] then []
    else if es[0].key == k then es[1..]
    else [es[0]] + Remove(es[1..], k)
  }

  function Lookup(es: seq<Entry>, k: string): Option<string> {
    if es == [] then None
    else if es[0].key == k then Some(es[0].value)
    else Lookup(es[1..], k)
  }

  ghost predicate Below(k: string, es: seq<Entry>) {
    forall i :: 0 <= i < |es| ==> StrLess(k, es[i].key)
  }

  lemma SortedCons(e: Entry, es: seq<Entry>)
    requires Below(e.key, es) && Sorted(es)
    ensures Sorted([e] + es)
  {
  }

  lemma SortedTail(es: seq<Entry>)
    requires Sorted(es) && es != []
    ensures Sorted(es[1..]) && Below(es[0].key, es[1..])
  {
    var t := es[1..];
    forall i | 0 <= i < |t| ensures StrLess(es[0].key, t[i].key) {
      assert t[i] == es[i + 1];
    }
    forall i, j | 0 <= i < j < |t| ensures StrLess(t[i].key, t[j].key) {
      assert t[i] == es[i + 1] && t[j] == es[j + 1];
    }
  }

  /** Adding keeps the order, and changes the value of one key only. */
  lemma {:induction false} AddCorrect(es: seq<Entry>, k: string, v: string, low: string)
    requires Sorted(es)
    ensures Sorted(Add(es, k, v))
    ensures Below(low, es) && StrLess(low, k) ==> Below(low, Add(es, k, v))
    ensures forall q :: Lookup(Add(es, k, v), q) == if q == k then Some(v) else Lookup(es, q)
  {
    if es != [] {
      var e, t := es[0], es[1..];
      SortedTail(es);
      if e.key == k {
        SortedCons(Entry(k, v), t);
      } else if StrLess(k, e.key) {
        forall i | 0 <= i < |es| ensures StrLess(k, es[i].key) {
          if i > 0 { StrLessTrans(k, e.key, es[i].key); }
        }
        SortedCons(Entry(k, v), es);
      } else {
        StrLessTotal(e.key, k);
        AddCorrect(t, k, v, e.key);
        SortedCons(e, Add(t, k, v));
        AddCorrect(t, k, v, low);
        assert Below(low, es) ==> Below(low, t) by {
          if Below(low, es) {
            forall i | 0 <= i < |t| ensures StrLess(low, t[i].key) { assert t[i] == es[i + 1]; }
          }
        }
      }
    }
  }

  /** Removing keeps the order, and drops one key only. */
  lemma {:induction false} RemoveCorrect(es: seq<Entry>, k: string)
    requires Sorted(es)
    ensures Sorted(Remove(es, k))
    ensures forall i :: 0 <= i < |Remove(es, k)| ==> Remove(es, k)[i] in es
    ensures forall q :: Lookup(Remove(es, k), q) == if q == k then None else Lookup(es, q)
  {
    if es != [] {
      var e, t := es[0], es[1..];
      SortedTail(es);
      if e.key == k {
        AbsentAbove(k, t);
      } else {
        RemoveCorrect(t, k);
        var r := Remove(t, k);
        forall i | 0 <= i < |r| ensures StrLess(e.key, r[i].key) {
          assert r[i] in t;
        }
        SortedCons(e, r);
      }
    }
  }

  lemma {:induction false} AbsentAbove(k: string, es: seq<Entry>)
    requires Below(k, es)
    ensures Lookup(es, k) == None
  {
    if es != [] {
      StrLessIrreflexive(k);
      AbsentAbove(k, es[1..]);
    }
  }

  /** A lookup finds a value exactly if the map holds it under that key. */
  lemma {:induction false} LookupIs(es: seq<Entry>, k: string, v: string)
    requires Sorted(es)
    ensures Lookup(es, k) == Some(v) <==> Entry(k, v) in es
  {
    if es != [] {
      SortedTail(es);
      LookupIs(es[1..], k, v);
      assert es == [es[0]] + es[1..];
      if es[0].key == k && Entry(k, v) in es[1..] {
        var i :| 0 <= i < |es[1..]| && es[1..][i] == Entry(k, v);
        assert StrLess(es[0].key, es[i + 1].key);
        StrLessIrreflexive(k);
      }
    }
  }

  // ---------------------------------------------------------------- the text form

  /** `strchr`: position of the first `c`, or the length. */
  function Find(s: string, c: char): (n: nat)
    ensures n <= |s|
    ensures n < |s| ==> s[n] == c
    ensures forall i :: 0 <= i < n ==> s[i] != c
  {
    if s == [] then 0 else if s[0] == c then 0 else 1 + Find(s[1..], c)
  }

  function EntryText(e: Entry): string { e.key + "=" + e.value }

  function Flatten(es: seq<Entry>): string {
    if es == [] then ""
    else if |es| == 1 then EntryText(es[0])
    else EntryText(es[0]) + ";" + Flatten(es[1..])
  }

  lemma Regroup(done: string, k: string, v: string, more: string)
    ensures done + (k + "=" + v + ";" + more) == (done + k + "=" + v + ";") + more
    ensures done + (k + "=" + v) == (done + k + "=" + v) + ""
  {
  }

  /** What one round of the printing loop appends. */
  lemma FlattenStep(done: string, es: seq<Entry>)
    requires es != []
    ensures |es| > 1 ==> done + Flatten(es) == (done + es[0].key + "=" + es[0].value + ";") + Flatten(es[1..])
    ensures |es| == 1 ==> done + Flatten(es) == (done + es[0].key + "=" + es[0].value) + Flatten(es[1..])
  {
    Regroup(done, es[0].key, es[0].value, Flatten(es[1..]));
  }

  lemma FlattenNone()
    ensures Flatten([]) == ""
  {
  }

  /** The pairs the parsing loop of `unflatten` reads, in order. */
  function Pairs(text: string): seq<Entry>
    decreases |text|
  {
    var b := Find(text, '=');
    if b == |text| then []
    else
      var rest := text[b + 1..];
      var c := Find(rest, ';');
      var e := Entry(text[..b], rest[..c]);
      if c == |rest| then [e] else [e] + Pairs(rest[c + 1..])
  }

  /** Adds pairs one after the other; a later pair replaces an earlier one with the same key. */
  function AddAll(es: seq<Entry>, ps: seq<Entry>): seq<Entry>
    decreases |ps|
  {
    if ps == [] then es else AddAll(Add(es, ps[0].key, ps[0].value), ps[1..])
  }

  function Unflatten(text: string): seq<Entry> { AddAll([], Pairs(text)) }

  /** No key contains `=` and no value contains `;`. */
  ghost predicate Clean(es: seq<Entry>) {
    forall i :: 0 <= i < |es| ==> '=' !in es[i].key && ';' !in es[i].value
  }

  lemma {:induction false} AddClean(es: seq<Entry>, k: string, v: string)
    requires Clean(es) && '=' !in k && ';' !in v
    ensures Clean(Add(es, k, v))
  {
    if es != [] && es[0].key != k && !StrLess(k, es[0].key) {
      AddClean(es[1..], k, v);
    }
  }

  /** What every operation keeps. */
  ghost predicate Good(es: seq<Entry>) { Sorted(es) && Clean(es) }

  lemma AddKeeps(es: seq<Entry>, k: string, v: string)
    requires Good(es) && '=' !in k && ';' !in v
    ensures Good(Add(es, k, v))
  {
    AddCorrect(es, k, v, "");
    AddClean(es, k, v);
  }

  lemma FindPrefix(s: string, c: char)
    ensures c !in s[..Find(s, c)]
  {
  }

  lemma CleanCons(e: Entry, es: seq<Entry>)
    requires '=' !in e.key && ';' !in e.value
    ensures Clean([]) && Clean([e])
    ensures Clean(es) ==> Clean([e] + es)
  {
  }

  /** Whatever the text, the pairs read from it are clean. */
  lemma {:induction false} PairsClean(text: string)
    ensures Clean(Pairs(text))
    decreases |text|
  {
    hide Find, Clean;
    var b := Find(text, '=');
    if b == |text| {
      CleanCons(Entry("", ""), []);
      return;
    }
    var rest := text[b + 1..];
    var c := Find(rest, ';');
    var e := Entry(text[..b], rest[..c]);
    FindPrefix(text, '=');
    FindPrefix(rest, ';');
    if c == |rest| {
      CleanCons(e, []);
    } else {
      PairsClean(rest[c + 1..]);
      CleanCons(e, Pairs(rest[c + 1..]));
    }
  }

  lemma {:induction false} AddAllKeeps(es: seq<Entry>, ps: seq<Entry>)
    requires Good(es) && Clean(ps)
    ensures Good(AddAll(es, ps))
    decreases |ps|
  {
    if ps != [] {
      AddKeeps(es, ps[0].key, ps[0].value);
      AddAllKeeps(Add(es, ps[0].key, ps[0].value), ps[1..]);
    }
  }

  /** The result of `unflatten` is good for every text. */
  lemma UnflattenGood(text: string)
    ensures Good(Unflatten(text))
  {
    PairsClean(text);
    AddAllKeeps([], Pairs(text));
  }

  lemma FindAfter(a: string, c: char, b: string)
    requires c !in a
    ensures Find(a + [c] + b, c) == |a|
  {
    var s := a + [c] + b;
    assert s[|a|] == c;
    assert s[..|a|] == a;
  }

  lemma FindNone(a: string, c: char)
    requires c !in a
    ensures Find(a, c) == |a|
  {
  }

  /** A key above all others is added at the end. */
  lemma {:induction false} AddLast(es: seq<Entry>, k: string, v: string)
    requires forall i :: 0 <= i < |es| ==> StrLess(es[i].key, k)
    ensures Add(es, k, v) == es + [Entry(k, v)]
  {
    if es != [] {
      StrLessIrreflexive(k);
      assert es[0].key != k;
      assert !StrLess(k, es[0].key) by {
        if StrLess(k, es[0].key) { StrLessTrans(k, es[0].key, k); }
      }
      AddLast(es[1..], k, v);
    }
  }

  /** One round of the parsing loop on well-formed text. */
  lemma PairsLast(k: string, v: string)
    requires '=' !in k && ';' !in v
    ensures Pairs(k + "=" + v) == [Entry(k, v)]
  {
    hide Find;
    var text := k + ['='] + v;
    FindAfter(k, '=', v);
    assert text[|k| + 1..] == v && text[..|k|] == k && v[..|v|] == v;
    FindNone(v, ';');
  }

  lemma PairsMore(k: string, v: string, more: string)
    requires '=' !in k && ';' !in v
    ensures Pairs(k + "=" + (v + ";" + more)) == [Entry(k, v)] + Pairs(more)
  {
    hide Find;
    var tail := v + [';'] + more;
    var text := k + ['='] + tail;
    FindAfter(k, '=', tail);
    assert text[|k| + 1..] == tail && text[..|k|] == k;
    FindAfter(v, ';', more);
    assert tail[|v| + 1..] == more && tail[..|v|] == v;
  }

  lemma PairsEntry(e: Entry, more: string)
    requires '=' !in e.key && ';' !in e.value
    ensures Pairs(EntryText(e)) == [e]
    ensures Pairs(EntryText(e) + ";" + more) == [e] + Pairs(more)
  {
    hide Pairs;
    PairsLast(e.key, e.value);
    PairsMore(e.key, e.value, more);
    assert EntryText(e) + ";" + more == e.key + "=" + (e.value + ";" + more);
  }

  /** Reading the text of clean pairs gives them back. */
  lemma {:induction false} PairsFlatten(es: seq<Entry>)
    requires Clean(es)
    ensures Pairs(Flatten(es)) == es
  {
    if es == [] {
      FindNone("", '=');
    } else {
      PairsEntry(es[0], Flatten(es[1..]));
      PairsFlatten(es[1..]);
    }
  }

  /** Adding sorted pairs to a map below them appends them. */
  lemma {:induction false} AddAllSorted(done: seq<Entry>, es: seq<Entry>)
    requires Sorted(done + es)
    ensures AddAll(done, es) == done + es
    decreases |es|
  {
    if es != [] {
      var e, t := es[0], es[1..];
      assert (done + es)[|done|] == e;
      forall i | 0 <= i < |done| ensures StrLess(done[i].key, e.key) {
        assert (done + es)[i] == done[i];
      }
      AddLast(done, e.key, e.value);
      assert done + es == (done + [e]) + t;
      AddAllSorted(done + [e], t);
    }
  }

  /** A sorted map survives its text form exactly when it is clean. */
  lemma RoundTripIff(es: seq<Entry>)
    requires Sorted(es)
    ensures Unflatten(Flatten(es)) == es <==> Clean(es)
  {
    UnflattenGood(Flatten(es));
    if Clean(es) {
      PairsFlatten(es);
      assert [] + es == es;
      AddAllSorted([], es);
    }
  }

  // ---------------------------------------------------------------- every run

  datatype Op = SetOp(key: string, value: string) | RemoveOp(key: string) | UnflattenOp(text: string)

  predicate Accepted(key: string, value: string) {
    '=' !in key && ';' !in key && '=' !in value && ';' !in value
  }

  function Apply(es: seq<Entry>, op: Op): seq<Entry> {
    match op
    case SetOp(k, v) => if Accepted(k, v) then Add(es, k, v) else es
    case RemoveOp(k) => Remove(es, k)
    case UnflattenOp(text) => Unflatten(text)
  }

  function Run(ops: seq<Op>): seq<Entry> {
    if ops == [] then [] else Apply(Run(ops[..|ops| - 1]), ops[|ops| - 1])
  }

  lemma ApplyKeeps(es: seq<Entry>, op: Op)
    requires Good(es)
    ensures Good(Apply(es, op))
  {
    match op
    case SetOp(k, v) =>
      AddCorrect(es, k, v, "");
      if Accepted(k, v) { AddClean(es, k, v); }
    case RemoveOp(k) =>
      RemoveCorrect(es, k);
    case UnflattenOp(text) =>
      UnflattenGood(text);
  }

  lemma {:induction false} RunKeeps(ops: seq<Op>)
    ensures Good(Run(ops))
  {
    if ops != [] {
      RunKeeps(ops[..|ops| - 1]);
      ApplyKeeps(Run(ops[..|ops| - 1]), ops[|ops| - 1]);
    }
  }

  /** Every map that any run of operations reaches survives its text form. */
  lemma ReachableRoundTrip(ops: seq<Op>)
    ensures Unflatten(Flatten(Run(ops))) == Run(ops)
  {
    RunKeeps(ops);
    RoundTripIff(Run(ops));
  }
}
