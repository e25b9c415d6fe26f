/** The table of commands itself: what the five passes of SortMyXmlFiles leave in it, rows
    that are never written again included. */
module TagTable {
  import opened TagSort

  // ---------- The passes ----------

  /** The table with s in row j, which may be the first free one. */
  function Store(rows: seq<Text>, j: nat, s: Text): seq<Text>
    requires j <= |rows|
  {
    if j < |rows| then rows[j := s] else rows + [s]
  }

  class XmlTable {
    var rows: seq<Text>

    constructor (rows: seq<Text>)
      ensures this.rows == rows
    {
      this.rows := rows;
    }

    /** One pass over the copy. */
    method RunPass(temp: array<Text>, k: nat, from: nat, ghost es: seq<Text>) returns (j: nat)
      requires k < 5 && from <= |rows| && temp.Length == |es|
      requires forall i | 0 <= i < |es| :: temp[i] == Stage(es[i], k)
      modifies this, temp
      ensures forall i | 0 <= i < |es| :: temp[i] == Stage(es[i], k + 1)
      ensures j == from + |Picked(es, k)| && Wrote(old(rows), rows, from, Picked(es, k))
    {
      hide Stage, Picks, Wrote, Picked, Store, Mark;
      j := from;
      ghost var before := rows;
      WroteNothing(rows, from);
      PickedNothing(es, k);
      for i := 0 to temp.Length
        invariant forall x | 0 <= x < |es| :: temp[x] == Stage(es[x], if x < i then k + 1 else k)
        invariant j == from + |Picked(es[..i], k)| <= |rows| && Wrote(before, rows, from, Picked(es[..i], k))
      {
        StageNext(es[i], k);
        PickedMore(es, i, k);
        if Picks(PassAt(k), temp[i]) {
          WroteMore(before, rows, from, Picked(es[..i], k), temp[i]);
          rows := Store(rows, j, temp[i]);
          temp[i] := Mark(temp[i]);
          j := j + 1;
        }
      }
      assert es[..|es|] == es;
    }

    /** SortMyXmlFiles */
    method Sort()
      modifies this
      ensures Wrote(old(rows), rows, 0, Written(old(rows), 5))
      ensures rows == Partition(old(rows), 5) <==> Sortable(old(rows))
      ensures Sortable(old(rows)) ==> multiset(rows) == multiset(old(rows))
    {
      hide Stage, Wrote, Sortable, Partition;
      ghost var es := rows;
      var temp := new Text[|rows|](i requires 0 <= i < |rows| reads this => rows[i]);
      StageFirst(es);
      var j := 0;
      WroteNothing(rows, 0);
      for k := 0 to 5
        invariant forall i | 0 <= i < |es| :: temp[i] == Stage(es[i], k)
        invariant j == |Written(es, k)| <= |rows| && Wrote(es, rows, 0, Written(es, k))
      {
        ghost var mid := rows;
        j := RunPass(temp, k, j, es);
        WroteTwice(es, mid, rows, Written(es, k), Picked(es, k));
      }
      TableSorted(es, rows);
      PartitionIsPermutation(es);
    }
  }

  /** The rows from an offset on hold x; those behind are as before. */
  ghost predicate Wrote(before: seq<Text>, after: seq<Text>, from: nat, x: seq<Text>) {
    && from <= |before|
    && after == before[..from] + x + if from + |x| <= |before| then before[from + |x|..] else []
  }

  lemma WroteNothing(rows: seq<Text>, from: nat)
    requires from <= |rows|
    ensures Wrote(rows, rows, from, [])
  {
  }

  lemma WroteMore(before: seq<Text>, after: seq<Text>, from: nat, x: seq<Text>, s: Text)
    requires Wrote(before, after, from, x)
    ensures from + |x| <= |after| && Wrote(before, Store(after, from + |x|, s), from, x + [s])
    ensures from + |x| + 1 <= |Store(after, from + |x|, s)|
  {
  }

  lemma WroteTwice(before: seq<Text>, mid: seq<Text>, after: seq<Text>, x: seq<Text>, y: seq<Text>)
    requires Wrote(before, mid, 0, x) && Wrote(mid, after, |x|, y)
    ensures Wrote(before, after, 0, x + y) && |x + y| <= |after|
  {
  }

  // ---------- The table that is left ----------

  /** A text without tags that looks marked from the start. */
  predicate Star(e: Text) { Kind(e).Others? && e[0] == '*' }

  /** A text that belongs behind those without tags. */
  predicate Late(e: Text) { Kind(e).Patch? || Kind(e).Power? }

  /** Every other text is written once; and the texts that look marked, if there are any,
      are the last rows already and belong there. */
  predicate Sortable(es: seq<Text>) {
    && (forall i | 0 <= i < |es| :: Star(es[i]) || Once(es[i]))
    && (forall i, j | 0 <= i <= j < |es| :: Star(es[i]) ==> Star(es[j]))
    && (forall i, j | 0 <= i < |es| && 0 <= j < |es| :: Star(es[i]) ==> !Late(es[j]))
  }

  predicate AllStars(es: seq<Text>) { forall i | 0 <= i < |es| :: Star(es[i]) }

  predicate AllPlain(es: seq<Text>) { forall i | 0 <= i < |es| :: Kind(es[i]).Others? }

  lemma {:induction false} OfAppend(x: seq<Text>, y: seq<Text>, p: Pass)
    ensures Of(x + y, p) == Of(x, p) + Of(y, p)
  {
    hide Kind;
    if y == [] {
      assert x + y == x;
    } else {
      OfAppend(x, y[..|y| - 1], p);
      assert (x + y)[..|x + y| - 1] == x + y[..|y| - 1];
    }
  }

  lemma {:induction false} OfPlain(es: seq<Text>, p: Pass)
    requires AllPlain(es)
    ensures Of(es, p) == if p.Others? then es else []
  {
    hide Kind;
    if es != [] {
      OfPlain(es[..|es| - 1], p);
      assert es == es[..|es| - 1] + [es[|es| - 1]];
    }
  }

  lemma {:induction false} OfOf(es: seq<Text>, p: Pass, q: Pass)
    ensures Of(Of(es, p), q) == if p == q then Of(es, p) else []
  {
    hide Kind;
    if es != [] {
      var m := |es| - 1;
      OfOf(es[..m], p, q);
      OfAppend(Of(es[..m], p), [es[m]], q);
      assert [es[m]][..0] == [];
    }
  }

  /** The texts without tags stay in their order. */
  lemma OfPartition(es: seq<Text>)
    ensures Of(Partition(es, 5), Others) == Of(es, Others)
  {
    hide Of, Kind, Partition;
    OfPartitionUpTo(es, 5);
  }

  lemma {:induction false} OfPartitionUpTo(es: seq<Text>, n: nat)
    requires n <= 5
    ensures Of(Partition(es, n), Others) == if n > 2 then Of(es, Others) else []
  {
    if n == 0 {
    } else {
      hide Of, Kind;
      OfPartitionUpTo(es, n - 1);
      OfAppend(Partition(es, n - 1), Of(es, PassAt(n - 1)), Others);
      OfOf(es, PassAt(n - 1), Others);
    }
  }

  lemma {:induction false} OfHas(es: seq<Text>, i: nat)
    requires i < |es|
    ensures es[i] in Of(es, Kind(es[i]))
  {
    hide Kind;
    if i < |es| - 1 { OfHas(es[..|es| - 1], i); }
  }

  lemma {:induction false} OfIn(es: seq<Text>, p: Pass, x: Text)
    requires x in Of(es, p)
    ensures x in es && Kind(x) == p
  {
    hide Kind;
    var m := |es| - 1;
    if x in Of(es[..m], p) { OfIn(es[..m], p, x); }
  }

  /** No pass writes a text that looks marked and has no tag. */
  lemma {:induction false} PickedNoStar(es: seq<Text>, k: nat, x: Text)
    requires k < 5 && x in Picked(es, k)
    ensures !Star(x)
  {
    hide Contains, Stage;
    if x in Picked(es[..|es| - 1], k) { PickedNoStar(es[..|es| - 1], k, x); }
  }

  lemma {:induction false} WrittenNoStar(es: seq<Text>, n: nat, x: Text)
    requires n <= 5 && x in Written(es, n)
    ensures !Star(x)
  {
    hide Picked, Star;
    if x in Picked(es, n - 1) { PickedNoStar(es, n - 1, x); } else { WrittenNoStar(es, n - 1, x); }
  }

  // ---------- Marked texts in the last rows ----------

  lemma {:induction false} PickedStars(a: seq<Text>, b: seq<Text>, k: nat)
    requires AllStars(b) && k < 5
    ensures Picked(a + b, k) == Picked(a, k)
    decreases |b|
  {
    hide Contains, Stage, Picks;
    if b == [] {
      assert a + b == a;
    } else {
      var m := |b| - 1;
      PickedStars(a, b[..m], k);
      NeverPicked(b[m], k);
      assert (a + b)[..|a + b| - 1] == a + b[..m];
    }
  }

  lemma {:induction false} WrittenStars(a: seq<Text>, b: seq<Text>, n: nat)
    requires AllStars(b) && n <= 5
    ensures Written(a + b, n) == Written(a, n)
    decreases n
  {
    hide Picked, Star;
    if n > 0 {
      WrittenStars(a, b, n - 1);
      PickedStars(a, b, n - 1);
    }
  }

  lemma {:induction false} NoneLate(es: seq<Text>, p: Pass)
    requires (p.Patch? || p.Power?) && forall i | 0 <= i < |es| :: !Late(es[i])
    ensures Of(es, p) == []
  {
    hide Kind;
    if es != [] { NoneLate(es[..|es| - 1], p); }
  }

  /** With nothing that belongs behind them they are where the partition puts them. */
  lemma PartitionStars(a: seq<Text>, b: seq<Text>)
    requires AllPlain(b) && (b != [] ==> forall i | 0 <= i < |a| :: !Late(a[i]))
    ensures Partition(a + b, 5) == Partition(a, 5) + b
  {
    if b == [] {
      assert a + b == a;
    } else {
      hide *;
      FiveParts(a + b);
      FiveParts(a);
      OfBehind(a, b, Configure);
      OfBehind(a, b, Erase);
      OfBehind(a, b, Others);
      OfBehind(a, b, Patch);
      OfBehind(a, b, Power);
      NoneLate(a, Patch);
      NoneLate(a, Power);
      LastOfFive(Of(a, Configure), Of(a, Erase), Of(a, Others), b);
    }
  }

  lemma OfBehind(a: seq<Text>, b: seq<Text>, p: Pass)
    requires AllPlain(b)
    ensures Of(a + b, p) == if p.Others? then Of(a, p) + b else Of(a, p)
  {
    hide Of, AllPlain;
    OfAppend(a, b, p);
    OfPlain(b, p);
  }

  lemma LastOfFive(c: seq<Text>, e: seq<Text>, o: seq<Text>, b: seq<Text>)
    ensures c + e + (o + b) + [] + [] == c + e + o + [] + [] + b
  {
  }

  lemma FiveParts(es: seq<Text>)
    ensures Partition(es, 5) == Of(es, Configure) + Of(es, Erase) + Of(es, Others) + Of(es, Patch) + Of(es, Power)
  {
    hide *;
    PartitionNext(es, 1);
    PartitionNext(es, 2);
    PartitionNext(es, 3);
    PartitionNext(es, 4);
    PartitionNext(es, 5);
    PassOrder();
  }

  lemma PassOrder()
    ensures PassAt(0) == Configure && PassAt(1) == Erase && PassAt(2) == Others && PassAt(3) == Patch && PassAt(4) == Power
  {
  }

  lemma PartitionNext(es: seq<Text>, n: nat)
    requires 1 <= n <= 5
    ensures Partition(es, n) == Partition(es, n - 1) + Of(es, PassAt(n - 1)) && Partition(es, 0) == []
  {
    hide Of;
  }

  lemma StarsArePlain(b: seq<Text>)
    requires AllStars(b)
    ensures AllPlain(b)
  {
  }

  lemma PartitionLength(es: seq<Text>)
    ensures |Partition(es, 5)| == |es|
  {
    hide Partition;
    PartitionIsPermutation(es);
    assert |multiset(Partition(es, 5))| == |Partition(es, 5)| && |multiset(es)| == |es|;
  }

  /** The condition is enough. */
  lemma SortableSuffices(a: seq<Text>, b: seq<Text>, rows: seq<Text>)
    requires AllOnce(a) && AllStars(b) && (b != [] ==> forall i | 0 <= i < |a| :: !Late(a[i]))
    requires Wrote(a + b, rows, 0, Written(a + b, 5))
    ensures rows == Partition(a + b, 5)
  {
    hide Written, Partition, Once, Star, Late, AllStars, AllPlain, AllOnce;
    WrittenStars(a, b, 5);
    WrittenIsPartition(a, 5);
    StarsArePlain(b);
    PartitionStars(a, b);
    PartitionLength(a);
  }

  // ---------- No other table comes out right ----------

  lemma {:induction false} TaggedOnce(es: seq<Text>, i: nat)
    requires CountPlain(Written(es, 5), false) == CountPlain(Partition(es, 5), false) && i < |es|
    ensures Kind(es[i]).Others? || Once(es[i])
    decreases |es|
  {
    hide Written, Partition, CountPlain, AddsAll, Kind, Once;
    var m := |es| - 1;
    CountsDecide(es[..m]);
    CountWritten(es, 5, false);
    CountPartition(es, 5, false);
    if Kind(es[m]).Others? { UntaggedAdds(es[m]); } else { TaggedAdds(es[m]); }
    if i < m { TaggedOnce(es[..m], i); }
  }

  lemma {:induction false} NoneTagged(es: seq<Text>)
    requires CountPlain(es, false) == 0
    ensures AllPlain(es)
  {
    hide Kind;
    if es != [] { NoneTagged(es[..|es| - 1]); }
  }

  lemma {:induction false} CountTotal(es: seq<Text>)
    ensures |es| == CountPlain(es, true) + CountPlain(es, false)
  {
    hide Kind;
    if es != [] { CountTotal(es[..|es| - 1]); }
  }

  /** Rows without tags add nothing to what is written only if they all look marked. */
  lemma {:induction false} WrittenMore(a: seq<Text>, b: seq<Text>)
    requires AllPlain(b)
    ensures |Written(a + b, 5)| >= |Written(a, 5)|
    ensures |Written(a + b, 5)| == |Written(a, 5)| ==> AllStars(b)
    decreases |b|
  {
    hide Written, CountPlain, AddsAll, Kind;
    if b == [] {
      assert a + b == a;
    } else {
      var m := |b| - 1;
      var es := a + b;
      WrittenMore(a, b[..m]);
      assert es[..|es| - 1] == a + b[..m];
      CountWritten(es, 5, true);
      CountWritten(es, 5, false);
      CountTotal(Written(es, 5));
      CountTotal(Written(a + b[..m], 5));
      UntaggedAdds(b[m]);
      StarOrOnce(b[m]);
      if Star(b[m]) && AllStars(b[..m]) { AllStarsMore(b); }
    }
  }

  lemma StarOrOnce(e: Text)
    requires Kind(e).Others?
    ensures Star(e) <==> !Once(e)
  {
  }

  lemma AllStarsMore(b: seq<Text>)
    requires b != [] && Star(b[|b| - 1]) && AllStars(b[..|b| - 1])
    ensures AllStars(b)
  {
    hide Star;
    forall i | 0 <= i < |b|
      ensures Star(b[i])
    {
      if i < |b| - 1 { assert b[..|b| - 1][i] == b[i]; }
    }
  }

  /** If any text belongs behind those without tags, the last one of the partition does. */
  lemma LastIsLate(es: seq<Text>, j: nat)
    requires j < |es| && Late(es[j])
    ensures Partition(es, 5) != [] && Late(Partition(es, 5)[|Partition(es, 5)| - 1])
  {
    hide Of, Kind, Partition;
    FiveParts(es);
    OfHas(es, j);
    var p := Of(es, Power);
    var q := if p != [] then p else Of(es, Patch);
    var last := q[|q| - 1];
    OfIn(es, if p != [] then Power else Patch, last);
    assert Partition(es, 5)[|Partition(es, 5)| - 1] == last;
  }

  /** The rows in front of those never overwritten hold no text that looks marked. */
  lemma NoStarInFront(a: seq<Text>, b: seq<Text>)
    requires Written(a + b, 5) + b == Partition(a + b, 5)
    ensures forall i | 0 <= i < |a| :: !Star(a[i])
  {
    hide Written, Partition, Of, Kind;
    var w := Written(a + b, 5);
    OfPartition(a + b);
    OfAppend(w, b, Others);
    OfAppend(a, b, Others);
    SameFront(Of(w, Others), Of(a, Others), Of(b, Others));
    forall i | 0 <= i < |a|
      ensures !Star(a[i])
    {
      if Star(a[i]) {
        OfHas(a, i);
        OfIn(w, Others, a[i]);
        WrittenNoStar(a + b, 5, a[i]);
        assert false;
      }
    }
  }

  lemma SameFront(x: seq<Text>, y: seq<Text>, z: seq<Text>)
    requires x + z == y + z
    ensures x == y
  {
    assert |x| == |y|;
    assert forall i | 0 <= i < |x| :: x[i] == (x + z)[i] && y[i] == (y + z)[i];
  }

  /** The rows never overwritten all look marked, and the others are written once. */
  lemma RightMeansSortable(a: seq<Text>, b: seq<Text>)
    requires |Written(a + b, 5)| == |a| && Written(a + b, 5) + b == Partition(a + b, 5)
    ensures AllOnce(a) && AllStars(b) && (b != [] ==> forall i | 0 <= i < |a| :: !Late(a[i]))
  {
    hide Written, Partition, CountPlain, Once, Star, AllStars, AllPlain, Late, AllOnce;
    var es, w := a + b, Written(a + b, 5);
    CountsDecide(es);
    CountAppend(w, b, false);
    NoneTagged(b);
    NoStarInFront(a, b);
    forall i | 0 <= i < |a|
      ensures Once(a[i])
    {
      TaggedOnce(es, i);
      assert es[i] == a[i];
      if Kind(a[i]).Others? { StarOrOnce(a[i]); }
    }
    IsAllOnce(a);
    WrittenIsPartition(a, 5);
    PartitionLength(a);
    WrittenMore(a, b);
    forall i | 0 <= i < |a| && b != []
      ensures !Late(a[i])
    {
      if Late(a[i]) {
        assert es[i] == a[i];
        LastIsLate(es, i);
        LastRowPlain(b);
      }
    }
  }

  lemma IsAllOnce(a: seq<Text>)
    requires forall i | 0 <= i < |a| :: Once(a[i])
    ensures AllOnce(a)
  {
  }

  lemma LastRowPlain(b: seq<Text>)
    requires b != [] && AllPlain(b)
    ensures !Late(b[|b| - 1])
  {
  }

  lemma ToSortable(a: seq<Text>, b: seq<Text>)
    requires AllOnce(a) && AllStars(b) && (b != [] ==> forall i | 0 <= i < |a| :: !Late(a[i]))
    ensures Sortable(a + b)
  {
    hide Kind;
    var es := a + b;
    forall i | 0 <= i < |es|
      ensures if i < |a| then Once(es[i]) && !Star(es[i]) && (b != [] ==> !Late(es[i])) else Star(es[i]) && !Late(es[i])
    {
      if i < |a| && Kind(es[i]).Others? { StarOrOnce(es[i]); }
    }
  }

  /** Where the texts that look marked begin. */
  function FirstStar(es: seq<Text>): (m: nat)
    ensures m <= |es| && (forall i | 0 <= i < m :: !Star(es[i])) && (m < |es| ==> Star(es[m]))
  {
    if es == [] || Star(es[0]) then 0
    else
      var m := FirstStar(es[1..]);
      assert forall i | 1 <= i < m + 1 :: es[i] == es[1..][i - 1];
      m + 1
  }

  lemma FromSortable(es: seq<Text>)
    requires Sortable(es)
    ensures var a, b := es[..FirstStar(es)], es[FirstStar(es)..];
            AllOnce(a) && AllStars(b) && (b != [] ==> forall i | 0 <= i < |a| :: !Late(a[i]))
  {
    hide Star, Once, Late, FirstStar;
  }

  /** Main theorem. The table that the five passes leave is the stable partition of what it
      was exactly when every text is written once, but for texts without tags that start
      with the mark: these must be the last rows already, with no patch or power anywhere. */
  lemma TableSorted(es: seq<Text>, rows: seq<Text>)
    requires Wrote(es, rows, 0, Written(es, 5))
    ensures rows == Partition(es, 5) <==> Sortable(es)
  {
    hide Written, Partition, Sortable, AllOnce, AllStars, Late, FirstStar;
    if Sortable(es) {
      var m := FirstStar(es);
      FromSortable(es);
      assert es == es[..m] + es[m..];
      SortableSuffices(es[..m], es[m..], rows);
    }
    if rows == Partition(es, 5) {
      PartitionLength(es);
      var m := |Written(es, 5)|;
      assert m <= |es|;
      assert es == es[..m] + es[m..];
      RightMeansSortable(es[..m], es[m..]);
      ToSortable(es[..m], es[m..]);
    }
  }

  // ---------- Tables that come out wrong, and one that does not ----------

  lemma ShortText(e: Text)
    requires |e| <= 2
    ensures Kind(e).Others?
  {
  }

  /** A text that starts with the mark is lost when it is not in the last row: the text
      behind it is written over it, and stays where it was as well. */
  lemma MarkedRowIsLost(rows: seq<Text>)
    requires Wrote(["*b", "a"], rows, 0, Written(["*b", "a"], 5))
    ensures rows == ["a", "a"] && rows != Partition(["*b", "a"], 5)
  {
    hide Contains, Stage, Picks, Picked, Partition, Kind;
    var es: seq<Text> := ["*b", "a"];
    ShortText("*b");
    ShortText("a");
    PickedOfTwo(0);
    PickedOfTwo(1);
    PickedOfTwo(2);
    PickedOfTwo(3);
    PickedOfTwo(4);
    WrittenFive(es);
    assert Written(es, 5) == ["a"];
    assert rows == ["a"] + es[1..] == ["a", "a"];
    TableSorted(es, rows);
    assert Star(es[0]) && !Star(es[1]);
  }

  lemma PickedOfTwo(k: nat)
    requires k < 5
    ensures Picked(["*b", "a"], k) == if k == 2 then ["a"] else []
  {
    hide Contains, Stage, Picks, Picked;
    var es: seq<Text> := ["*b", "a"];
    ShortText("*b");
    ShortText("a");
    NeverPicked("*b", k);
    PickedOnce("a", k);
    PickedNothing(es, k);
    PickedMore(es, 0, k);
    PickedMore(es, 1, k);
    assert es[..2] == es;
  }

  lemma WrittenFive(es: seq<Text>)
    ensures Written(es, 5) == Picked(es, 0) + Picked(es, 1) + Picked(es, 2) + Picked(es, 3) + Picked(es, 4)
  {
    hide *;
    WrittenNext(es, 1);
    WrittenNext(es, 2);
    WrittenNext(es, 3);
    WrittenNext(es, 4);
    WrittenNext(es, 5);
  }

  lemma WrittenNext(es: seq<Text>, n: nat)
    requires 1 <= n <= 5
    ensures Written(es, n) == Written(es, n - 1) + Picked(es, n - 1) && Written(es, 0) == []
  {
    hide Picked;
  }

  /** In the last row such a text stays, and is right there. */
  lemma MarkedRowStays(rows: seq<Text>)
    requires Wrote(["*"], rows, 0, Written(["*"], 5))
    ensures rows == ["*"] == Partition(["*"], 5)
  {
    hide Contains, Written, Partition, Kind;
    var es: seq<Text> := ["*"];
    ShortText("*");
    assert AllStars(es) && es == [] + es;
    SortableSuffices([], es, rows);
    WrittenStars([], es, 5);
    NothingWritten(5);
  }

  /** A text with two kinds of tags comes out twice, and the table grows. */
  lemma TwoKindsGrow(rows: seq<Text>)
    requires Wrote(["x<erase <patch "], rows, 0, Written(["x<erase <patch "], 5))
    ensures |rows| >= 2 && rows != Partition(["x<erase <patch "], 5)
  {
    var e: Text := "x<erase <patch ";
    hide Contains, Occurs, Written, Partition, CountPlain, AddsAll;
    TwoKinds();
    TaggedAdds(e);
    CountWritten([e], 5, true);
    CountWritten([e], 5, false);
    CountTotal(Written([e], 5));
    PartitionLength([e]);
  }

  lemma TwoKinds()
    ensures Contains("x<erase <patch ", ERASE) && Contains(Mark("x<erase <patch "), PATCH)
  {
    var e: Text := "x<erase <patch ";
    assert Occurs(e, ERASE, 1);
    assert Mark(e) == "*<erase <patch ";
    assert Occurs(Mark(e), PATCH, 8);
  }
}
