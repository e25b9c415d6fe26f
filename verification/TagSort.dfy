/** The order in which fh_loader sends its commands, SortMyXmlFiles in
    external/fh_loader/fh_loader.c: five passes over a table of XML texts, each of which
    writes out the texts of one kind and marks them as used up. */
module TagSort {

  predicate Occurs(s: string, t: string, i: nat) {
    i + |t| <= |s| && s[i..i + |t|] == t
  }

  /** strstr finds something. */
  predicate Contains(s: string, t: string) {
    exists i | 0 <= i <= |s| :: Occurs(s, t, i)
  }

  const CONFIGURE := "<configure "
  const ERASE := "<erase "
  const PATCH := "<patch "
  const POWER := "<power "

  /** The five passes, in this order. */
  datatype Pass = Configure | Erase | Others | Patch | Power

  function PassAt(k: nat): Pass
    requires k < 5
  {
    if k == 0 then Configure else if k == 1 then Erase else if k == 2 then Others else if k == 3 then Patch else Power
  }

  type Text = s: string | s != "" witness "*"

  /** The test of a pass. */
  predicate Picks(p: Pass, s: Text) {
    match p
    case Configure => Contains(s, CONFIGURE)
    case Erase => Contains(s, ERASE)
    case Others => !Contains(s, PATCH) && !Contains(s, POWER) && s[0] != '*'
    case Patch => Contains(s, PATCH)
    case Power => Contains(s, POWER)
  }

  /** The mark overwrites the first character. */
  function Mark(s: Text): Text { ['*'] + s[1..] }

  /** A text as it stands in the copy of the table before pass k. */
  function Stage(e: Text, k: nat): Text
    requires k <= 5
  {
    if k == 0 then e
    else
      var s := Stage(e, k - 1);
      if Picks(PassAt(k - 1), s) then Mark(s) else s
  }

  /** What pass k writes. */
  function Picked(es: seq<Text>, k: nat): seq<Text>
    requires k < 5
  {
    if es == [] then []
    else
      var s := Stage(es[|es| - 1], k);
      if Picks(PassAt(k), s) then Picked(es[..|es| - 1], k) + [s] else Picked(es[..|es| - 1], k)
  }

  /** What the first n passes write. */
  function Written(es: seq<Text>, n: nat): seq<Text>
    requires n <= 5
  {
    if n == 0 then [] else Written(es, n - 1) + Picked(es, n - 1)
  }

  // ---------- One pass, text by text ----------

  lemma StageNext(e: Text, k: nat)
    requires k < 5
    ensures Stage(e, k + 1) == if Picks(PassAt(k), Stage(e, k)) then Mark(Stage(e, k)) else Stage(e, k)
  {
  }

  lemma StageFirst(es: seq<Text>)
    ensures forall i | 0 <= i < |es| :: Stage(es[i], 0) == es[i]
  {
  }

  lemma PickedNothing(es: seq<Text>, k: nat)
    requires k < 5
    ensures Picked(es[..0], k) == []
  {
  }

  lemma PickedMore(es: seq<Text>, i: nat, k: nat)
    requires k < 5 && i < |es|
    ensures var s := Stage(es[i], k);
            Picked(es[..i + 1], k) == if Picks(PassAt(k), s) then Picked(es[..i], k) + [s] else Picked(es[..i], k)
  {
    hide Stage, Picks;
    assert es[..i + 1][..i] == es[..i];
  }

  // ---------- What the passes amount to ----------

  /** The kind of a text: the first of the four tags, in the order of the passes, that it
      contains. */
  function Kind(e: Text): Pass {
    if Contains(e, CONFIGURE) then Configure
    else if Contains(e, ERASE) then Erase
    else if Contains(e, PATCH) then Patch
    else if Contains(e, POWER) then Power
    else Others
  }

  /** The texts of a kind, in their old order. */
  function Of(es: seq<Text>, p: Pass): seq<Text> {
    if es == [] then []
    else
      var e := es[|es| - 1];
      if Kind(e) == p then Of(es[..|es| - 1], p) + [e] else Of(es[..|es| - 1], p)
  }

  /** The stable partition: configure, erase, the rest, patch, power. */
  function Partition(es: seq<Text>, n: nat): seq<Text>
    requires n <= 5
  {
    if n == 0 then [] else Partition(es, n - 1) + Of(es, PassAt(n - 1))
  }

  /** No later pass finds a tag in the text once it is marked; and a text without tags
      does not look marked from the start. */
  predicate Once(e: Text) {
    match Kind(e)
    case Configure => !Contains(Mark(e), ERASE) && !Contains(Mark(e), PATCH) && !Contains(Mark(e), POWER)
    case Erase => !Contains(Mark(e), PATCH) && !Contains(Mark(e), POWER)
    case Patch => !Contains(Mark(e), POWER)
    case Power => true
    case Others => e[0] != '*'
  }

  /** A text that holds one kind of tag only. */
  predicate OneKind(e: Text) {
    && (Contains(e, CONFIGURE) ==> !Contains(e, ERASE) && !Contains(e, PATCH) && !Contains(e, POWER))
    && (Contains(e, ERASE) ==> !Contains(e, PATCH) && !Contains(e, POWER))
    && (Contains(e, PATCH) ==> !Contains(e, POWER))
  }

  /** Marking a text adds no tag to it. */
  lemma MarkAddsNothing(e: Text, t: string)
    requires t != "" && t[0] != '*' && Contains(Mark(e), t)
    ensures Contains(e, t)
  {
    var m := Mark(e);
    var i :| 0 <= i <= |m| && Occurs(m, t, i);
    assert m[i..i + |t|][0] == m[i];
    assert i > 0;
    assert e[i..i + |t|] == m[i..i + |t|];
    assert Occurs(e, t, i);
  }

  lemma OneKindIsOnce(e: Text)
    requires OneKind(e) && (Kind(e).Others? ==> e[0] != '*')
    ensures Once(e)
  {
    hide Contains;
    if Contains(Mark(e), ERASE) { MarkAddsNothing(e, ERASE); }
    if Contains(Mark(e), PATCH) { MarkAddsNothing(e, PATCH); }
    if Contains(Mark(e), POWER) { MarkAddsNothing(e, POWER); }
  }

  lemma MarkTwice(e: Text)
    ensures Mark(Mark(e)) == Mark(e) && Mark(e)[0] == '*'
  {
  }

  /** The pass that picks a text of a kind for the first time. */
  function PassOf(p: Pass): nat {
    match p case Configure => 0 case Erase => 1 case Others => 2 case Patch => 3 case Power => 4
  }

  /** Before its own pass a text stays as it is and is not picked. */
  lemma {:induction false} Untouched(e: Text, k: nat)
    requires k <= PassOf(Kind(e))
    ensures Stage(e, k) == e
    ensures k < PassOf(Kind(e)) ==> !Picks(PassAt(k), e)
  {
    hide Contains, Stage;
    if k > 0 {
      Untouched(e, k - 1);
      StageNext(e, k - 1);
    } else {
      StageFirst([e]);
      assert [e][0] == e;
    }
  }

  /** After its own pass a text stays marked. */
  lemma {:induction false} StaysMarked(e: Text, k: nat)
    requires PassOf(Kind(e)) < k <= 5 && Picks(PassAt(PassOf(Kind(e))), e)
    ensures Stage(e, k) == Mark(e)
  {
    hide Contains, Stage;
    MarkTwice(e);
    if k - 1 > PassOf(Kind(e)) { StaysMarked(e, k - 1); } else { Untouched(e, k - 1); }
    StageNext(e, k - 1);
  }

  /** Every text with a tag is picked by its own pass, and so is one without that does not
      look marked. */
  lemma OwnPass(e: Text)
    ensures Picks(PassAt(PassOf(Kind(e))), e) <==> (Kind(e).Others? ==> e[0] != '*')
  {
  }

  /** A text without tags that looks marked is never picked. */
  lemma {:induction false} NeverPicked(e: Text, k: nat)
    requires Kind(e).Others? && e[0] == '*' && k <= 5
    ensures Stage(e, k) == e && (k < 5 ==> !Picks(PassAt(k), e))
  {
    hide Contains, Stage;
    if k > 0 {
      NeverPicked(e, k - 1);
      StageNext(e, k - 1);
    } else {
      StageFirst([e]);
      assert [e][0] == e;
    }
  }

  /** A text is picked by its own pass and by no other, exactly as it was. */
  lemma PickedOnce(e: Text, k: nat)
    requires Once(e) && k < 5
    ensures Picks(PassAt(k), Stage(e, k)) <==> PassAt(k) == Kind(e)
    ensures PassAt(k) == Kind(e) ==> Stage(e, k) == e
  {
    hide Contains, Stage;
    OwnPass(e);
    if k <= PassOf(Kind(e)) {
      Untouched(e, k);
    } else {
      StaysMarked(e, k);
      MarkTwice(e);
      if Contains(Mark(e), PATCH) { MarkAddsNothing(e, PATCH); }
      if Contains(Mark(e), POWER) { MarkAddsNothing(e, POWER); }
    }
  }

  lemma {:induction false} PickedIsOf(es: seq<Text>, k: nat)
    requires k < 5 && AllOnce(es)
    ensures Picked(es, k) == Of(es, PassAt(k))
  {
    hide Stage, Picks, Kind, Once;
    if es != [] {
      PickedIsOf(es[..|es| - 1], k);
      PickedOnce(es[|es| - 1], k);
    }
  }

  lemma {:induction false} WrittenIsPartition(es: seq<Text>, n: nat)
    requires n <= 5 && AllOnce(es)
    ensures Written(es, n) == Partition(es, n)
  {
    hide Once, Picked, Of;
    if n > 0 {
      WrittenIsPartition(es, n - 1);
      PickedIsOf(es, n - 1);
    }
  }

  // ---------- The converse, by counting ----------

  /** How many texts have no tag, or have one. */
  function CountPlain(s: seq<Text>, plain: bool): nat {
    if s == [] then 0
    else CountPlain(s[..|s| - 1], plain) + if Kind(s[|s| - 1]).Others? == plain then 1 else 0
  }

  lemma {:induction false} CountAppend(s: seq<Text>, t: seq<Text>, plain: bool)
    ensures CountPlain(s + t, plain) == CountPlain(s, plain) + CountPlain(t, plain)
  {
    hide Kind;
    if t == [] {
      assert s + t == s;
    } else {
      CountAppend(s, t[..|t| - 1], plain);
      assert (s + t)[..|s + t| - 1] == s + t[..|t| - 1];
    }
  }

  /** What one text adds to a pass, and to all of them. */
  function Adds(e: Text, k: nat, plain: bool): nat
    requires k < 5
  {
    if Picks(PassAt(k), Stage(e, k)) && Kind(Stage(e, k)).Others? == plain then 1 else 0
  }

  function AddsAll(e: Text, n: nat, plain: bool): nat
    requires n <= 5
  {
    if n == 0 then 0 else AddsAll(e, n - 1, plain) + Adds(e, n - 1, plain)
  }

  lemma CountPicked(es: seq<Text>, k: nat, plain: bool)
    requires k < 5 && es != []
    ensures var n := |es| - 1;
            CountPlain(Picked(es, k), plain) == CountPlain(Picked(es[..n], k), plain) + Adds(es[n], k, plain)
  {
  }

  /** The written texts, counted text by text. */
  lemma {:induction false} CountWritten(es: seq<Text>, n: nat, plain: bool)
    requires n <= 5 && es != []
    ensures var m := |es| - 1;
            CountPlain(Written(es, n), plain) == CountPlain(Written(es[..m], n), plain) + AddsAll(es[m], n, plain)
    decreases n
  {
    hide Picked, CountPlain, Adds;
    if n > 0 {
      var m := |es| - 1;
      CountWritten(es, n - 1, plain);
      CountPicked(es, n - 1, plain);
      CountAppend(Written(es, n - 1), Picked(es, n - 1), plain);
      CountAppend(Written(es[..m], n - 1), Picked(es[..m], n - 1), plain);
    } else {
      assert Written(es, 0) == [] && Written(es[..|es| - 1], 0) == [];
    }
  }

  lemma CountOf(es: seq<Text>, p: Pass, plain: bool)
    requires es != []
    ensures var n := |es| - 1;
            var one := if Kind(es[n]) == p && p.Others? == plain then 1 else 0;
            CountPlain(Of(es, p), plain) == CountPlain(Of(es[..n], p), plain) + one
  {
  }

  lemma {:induction false} CountPartition(es: seq<Text>, n: nat, plain: bool)
    requires n <= 5 && es != []
    ensures var m := |es| - 1;
            CountPlain(Partition(es, n), plain) == CountPlain(Partition(es[..m], n), plain)
              + if PassOf(Kind(es[m])) < n && Kind(es[m]).Others? == plain then 1 else 0
    decreases n
  {
    hide Of, CountPlain, Kind;
    var m := |es| - 1;
    if n > 0 {
      CountPartition(es, n - 1, plain);
      CountOf(es, PassAt(n - 1), plain);
      CountAppend(Partition(es, n - 1), Of(es, PassAt(n - 1)), plain);
      CountAppend(Partition(es[..m], n - 1), Of(es[..m], PassAt(n - 1)), plain);
    } else {
      assert Partition(es, 0) == [] && Partition(es[..m], 0) == [];
    }
  }

  /** A text with a tag is written at least once; more often unless marking it hides all
      other tags. */
  lemma TaggedAdds(e: Text)
    requires !Kind(e).Others?
    ensures AddsAll(e, 5, true) == 0
    ensures AddsAll(e, 5, false) >= 1 && (!Once(e) ==> AddsAll(e, 5, false) >= 2)
  {
    hide Contains, Stage;
    OwnPass(e);
    AddsSum(e, true);
    AddsSum(e, false);
    var own := PassOf(Kind(e));
    Untouched(e, own);
    MarkTwice(e);
    hide Picks, Kind, Once;
    forall k | 0 <= k < 5
      ensures Adds(e, k, true) == 0
      ensures k == own ==> Adds(e, k, false) == 1
      ensures k > own && Contains(Mark(e), TagOf(k)) && k != 2 ==> Adds(e, k, false) == 1
    {
      AddsAt(e, k);
    }
    if !Once(e) { SomeTagLeft(e); }
  }

  function TagOf(k: nat): string {
    if k == 0 then CONFIGURE else if k == 1 then ERASE else if k == 3 then PATCH else POWER
  }

  lemma SomeTagLeft(e: Text)
    requires !Kind(e).Others? && !Once(e)
    ensures exists k | PassOf(Kind(e)) < k < 5 && k != 2 :: Contains(Mark(e), TagOf(k))
  {
    hide Contains;
    if Contains(Mark(e), POWER) {
      assert Contains(Mark(e), TagOf(4));
    } else if Contains(Mark(e), PATCH) {
      assert Contains(Mark(e), TagOf(3));
    } else {
      assert Contains(Mark(e), TagOf(1));
    }
  }

  /** A text with a tag, pass by pass. */
  lemma AddsAt(e: Text, k: nat)
    requires !Kind(e).Others? && k < 5
    ensures Adds(e, k, true) == 0
    ensures k == PassOf(Kind(e)) ==> Adds(e, k, false) == 1
    ensures k > PassOf(Kind(e)) && k != 2 && Contains(Mark(e), TagOf(k)) ==> Adds(e, k, false) == 1
  {
    hide Contains, Stage;
    OwnPass(e);
    if k <= PassOf(Kind(e)) {
      Untouched(e, k);
    } else {
      StaysMarked(e, k);
      MarkTwice(e);
    }
  }

  lemma AddsSum(e: Text, plain: bool)
    ensures AddsAll(e, 5, plain)
         == Adds(e, 0, plain) + Adds(e, 1, plain) + Adds(e, 2, plain) + Adds(e, 3, plain) + Adds(e, 4, plain)
  {
    AddsStep(e, 1, plain);
    AddsStep(e, 2, plain);
    AddsStep(e, 3, plain);
    AddsStep(e, 4, plain);
    AddsStep(e, 5, plain);
    hide Adds, AddsAll;
  }

  lemma AddsStep(e: Text, n: nat, plain: bool)
    requires 1 <= n <= 5
    ensures AddsAll(e, n, plain) == AddsAll(e, n - 1, plain) + Adds(e, n - 1, plain)
    ensures AddsAll(e, 0, plain) == 0
  {
  }

  lemma UntaggedAdds(e: Text)
    requires Kind(e).Others?
    ensures AddsAll(e, 5, false) == 0
    ensures AddsAll(e, 5, true) == if Once(e) then 1 else 0
  {
    hide Contains, Stage;
    AddsSum(e, true);
    AddsSum(e, false);
    if Once(e) {
      PickedOnce(e, 0);
      PickedOnce(e, 1);
      PickedOnce(e, 2);
      PickedOnce(e, 3);
      PickedOnce(e, 4);
    } else {
      NeverPicked(e, 0);
      NeverPicked(e, 1);
      NeverPicked(e, 2);
      NeverPicked(e, 3);
      NeverPicked(e, 4);
    }
  }

  predicate AllOnce(es: seq<Text>) {
    forall i | 0 <= i < |es| :: Once(es[i])
  }

  lemma AllOnceMore(es: seq<Text>)
    requires es != []
    ensures AllOnce(es) <==> AllOnce(es[..|es| - 1]) && Once(es[|es| - 1])
  {
  }

  /** Never too few texts with tags, never too many without; and both exactly right only
      if every text is written once. */
  lemma {:induction false} CountsDecide(es: seq<Text>)
    ensures CountPlain(Written(es, 5), true) <= CountPlain(Partition(es, 5), true)
    ensures CountPlain(Written(es, 5), false) >= CountPlain(Partition(es, 5), false)
    ensures CountPlain(Written(es, 5), true) == CountPlain(Partition(es, 5), true)
         && CountPlain(Written(es, 5), false) == CountPlain(Partition(es, 5), false)
         ==> AllOnce(es)
  {
    if es == [] {
      NothingWritten(5);
    } else {
      hide Written, Partition, CountPlain, AddsAll, Kind, Once, AllOnce;
      var m := |es| - 1;
      AllOnceMore(es);
      CountsDecide(es[..m]);
      CountWritten(es, 5, true);
      CountWritten(es, 5, false);
      CountPartition(es, 5, true);
      CountPartition(es, 5, false);
      if Kind(es[m]).Others? { UntaggedAdds(es[m]); } else { TaggedAdds(es[m]); }
    }
  }

  lemma {:induction false} NothingWritten(n: nat)
    requires n <= 5
    ensures Written([], n) == [] && Partition([], n) == []
  {
  }

  /** Main theorem. What is written is the stable partition exactly when every text is one
      that the passes write once. */
  lemma SortedExactlyWhen(es: seq<Text>)
    ensures Written(es, 5) == Partition(es, 5) <==> AllOnce(es)
  {
    hide Written, Partition, Once, CountPlain;
    if AllOnce(es) {
      WrittenIsPartition(es, 5);
    }
    CountsDecide(es);
  }

  /** One text or none. */
  ghost function Single(e: Text, b: bool): multiset<Text> {
    if b then multiset{e} else multiset{}
  }

  lemma OfPermutes(es: seq<Text>, p: Pass)
    requires es != []
    ensures var m := |es| - 1;
            multiset(Of(es, p)) == multiset(Of(es[..m], p)) + Single(es[m], Kind(es[m]) == p)
  {
  }

  /** The last text, wherever it goes, is the only difference that it makes. */
  lemma {:induction false} PartitionPermutes(es: seq<Text>, n: nat)
    requires n <= 5 && es != []
    ensures var m := |es| - 1;
            multiset(Partition(es, n)) == multiset(Partition(es[..m], n)) + Single(es[m], PassOf(Kind(es[m])) < n)
    decreases n
  {
    hide Kind, Of, Single, Partition;
    var m := |es| - 1;
    if n > 0 {
      PartitionPermutes(es, n - 1);
      OfPermutes(es, PassAt(n - 1));
      Singles(es[m], PassOf(Kind(es[m])), n);
      PartitionJoin(es, n);
      PartitionJoin(es[..m], n);
      Shuffle(multiset(Partition(es[..m], n - 1)), Single(es[m], PassOf(Kind(es[m])) < n - 1),
              multiset(Of(es[..m], PassAt(n - 1))), Single(es[m], Kind(es[m]) == PassAt(n - 1)));
    } else {
      NoPartition(es, m);
    }
  }

  lemma PartitionJoin(es: seq<Text>, n: nat)
    requires 1 <= n <= 5
    ensures multiset(Partition(es, n)) == multiset(Partition(es, n - 1)) + multiset(Of(es, PassAt(n - 1)))
  {
  }

  lemma NoPartition(es: seq<Text>, m: nat)
    requires m < |es|
    ensures multiset(Partition(es, 0)) == multiset(Partition(es[..m], 0)) + Single(es[m], false)
  {
  }

  lemma Shuffle(a: multiset<Text>, x: multiset<Text>, b: multiset<Text>, y: multiset<Text>)
    ensures (a + x) + (b + y) == (a + b) + (x + y)
  {
  }

  lemma Singles(e: Text, k: nat, n: nat)
    requires 1 <= n
    ensures Single(e, k < n - 1) + Single(e, k == n - 1) == Single(e, k < n)
  {
  }

  lemma {:induction false} PartitionIsPermutation(es: seq<Text>)
    ensures multiset(Partition(es, 5)) == multiset(es)
  {
    hide Partition, Kind;
    if es == [] {
      NothingWritten(5);
    } else {
      PartitionIsPermutation(es[..|es| - 1]);
      PartitionPermutes(es, 5);
      assert es == es[..|es| - 1] + [es[|es| - 1]];
    }
  }
}
