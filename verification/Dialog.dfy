/** The control sets of a dialog box in external/putty/dialog.c: an array kept in such an
    order that sets sharing leading path elements stay side by side. */
module Dialog {
  import opened Wrappers

  const INT_MAX := 0x7FFF_FFFF

  // ---------- Paths ----------

  /** The elements of a path, between its slashes. */
  function Elements(p: string): (es: seq<string>)
    ensures 1 <= |es| <= |p| + 1
  {
    if p == "" then [""]
    else
      var rest := Elements(p[1..]);
      if p[0] == '/' then [""] + rest else [[p[0]] + rest[0]] + rest[1..]
  }

  lemma {:induction false} ElementsInjective(p: string, q: string)
    ensures Elements(p) == Elements(q) ==> p == q
  {
    if Elements(p) == Elements(q) && p != "" && q != "" {
      var e, f := Elements(p[1..]), Elements(q[1..]);
      if p[0] == '/' {
        assert e == Elements(p)[1..] && f == Elements(q)[1..];
      } else {
        assert e[0] == Elements(p)[0][1..] && f[0] == Elements(q)[0][1..];
        assert e == [e[0]] + Elements(p)[1..] && f == [f[0]] + Elements(q)[1..];
      }
      ElementsInjective(p[1..], q[1..]);
      assert p == [p[0]] + p[1..] && q == [q[0]] + q[1..];
    }
  }

  /** How many elements two paths share at their starts. */
  function Common(a: seq<string>, b: seq<string>): (n: nat)
    ensures n <= |a| && n <= |b|
  {
    if a == [] || b == [] || a[0] != b[0] then 0 else 1 + Common(a[1..], b[1..])
  }

  /** What ctrl_path_compare promises. */
  function Matching(p: string, q: string): nat {
    if p == q then INT_MAX else Common(Elements(p), Elements(q))
  }

  predicate Ends(p: string, k: nat)
    requires k <= |p|
  {
    k == |p| || p[k] == '/'
  }

  /** Prefixing a character that is no slash changes nothing. */
  lemma CommonSameChar(c: char, a: seq<string>, b: seq<string>)
    requires a != [] && b != []
    ensures Common([[c] + a[0]] + a[1..], [[c] + b[0]] + b[1..]) == Common(a, b)
  {
    assert ([c] + a[0])[1..] == a[0] && ([c] + b[0])[1..] == b[0];
  }

  lemma CommonSlash(a: seq<string>, b: seq<string>)
    ensures Common([""] + a, [""] + b) == 1 + Common(a, b)
  {
  }

  /** Dropping an equal first character. */
  lemma CommonStep(p: string, q: string)
    requires p != "" && q != "" && p[0] == q[0]
    ensures Common(Elements(p), Elements(q))
         == Common(Elements(p[1..]), Elements(q[1..])) + if p[0] == '/' then 1 else 0
  {
    hide Common;
    var e, f := Elements(p[1..]), Elements(q[1..]);
    if p[0] == '/' { CommonSlash(e, f); } else { CommonSameChar(p[0], e, f); }
  }

  /** Where the first characters differ, one element matches only if both end here. */
  lemma CommonDiffer(p: string, q: string)
    requires (p == "" || q == "" || p[0] != q[0]) && p != q
    ensures Common(Elements(p), Elements(q)) == if Ends(p, 0) && Ends(q, 0) then 1 else 0
  {
    if p == "" && q[0] == '/' {
      assert Elements(q)[0] == "" && Elements(p)[1..] == [];
    } else if q == "" && p[0] == '/' {
      assert Elements(p)[0] == "" && Elements(q)[1..] == [];
    } else if p != "" && q != "" {
      FirstChar(p);
      FirstChar(q);
    } else if p == "" {
      FirstChar(q);
    } else {
      FirstChar(p);
    }
  }

  lemma FirstChar(p: string)
    requires p != ""
    ensures var e := Elements(p)[0]; if p[0] == '/' then e == "" else e != "" && e[0] == p[0]
  {
  }

  /** ctrl_path_compare */
  method PathCompare(p: string, q: string) returns (i: nat)
    ensures i == Matching(p, q)
  {
    hide Common, Elements;
    i := 0;
    var k := 0;
    while k < |p| || k < |q|
      invariant k <= |p| && k <= |q| && p[..k] == q[..k]
      invariant Common(Elements(p), Elements(q)) == i + Common(Elements(p[k..]), Elements(q[k..]))
      decreases |p| - k
    {
      if k == |p| || k == |q| || p[k] != q[k] {
        Differ(p, q, k);
        CommonDiffer(p[k..], q[k..]);
      } else {
        CommonStep(p[k..], q[k..]);
        assert p[k..][1..] == p[k + 1..] && q[k..][1..] == q[k + 1..];
      }
      if Ends(p, k) && Ends(q, k) {
        i := i + 1;
      }
      if k == |p| || k == |q| || p[k] != q[k] {
        return;
      }
      k := k + 1;
    }
    assert p == p[..k] && q == q[..k];
    i := INT_MAX;
  }

  lemma Differ(p: string, q: string, k: nat)
    requires k <= |p| && k <= |q| && (k < |p| || k < |q|) && (k == |p| || k == |q| || p[k] != q[k])
    ensures p != q && p[k..] != q[k..]
  {
  }

  // ---------- Depth of agreement ----------

  /** Common elements, the end of the path counting as one more. */
  function Shared(a: seq<string>, b: seq<string>): (n: nat)
    ensures n <= |a| + 1
  {
    if a == [] && b == [] then 1
    else if a == [] || b == [] || a[0] != b[0] then 0
    else 1 + Shared(a[1..], b[1..])
  }

  lemma {:induction false} SharedSymmetric(a: seq<string>, b: seq<string>)
    ensures Shared(a, b) == Shared(b, a)
  {
    if a != [] && b != [] && a[0] == b[0] { SharedSymmetric(a[1..], b[1..]); }
  }

  lemma {:induction false} SharedUltra(a: seq<string>, b: seq<string>, c: seq<string>)
    ensures Shared(a, c) >= Shared(a, b) || Shared(a, c) >= Shared(b, c)
  {
    if a != [] && b != [] && c != [] && a[0] == b[0] == c[0] { SharedUltra(a[1..], b[1..], c[1..]); }
  }

  lemma {:induction false} SharedIsCommon(a: seq<string>, b: seq<string>)
    ensures Shared(a, b) == if a == b then |a| + 1 else Common(a, b)
  {
    if a != [] && b != [] && a[0] == b[0] {
      SharedIsCommon(a[1..], b[1..]);
      assert a == [a[0]] + a[1..] && b == [b[0]] + b[1..];
    }
  }

  /** The depth to which two paths agree. */
  function Depth(p: string, q: string): nat {
    Shared(Elements(p), Elements(q))
  }

  /** Depths are to each other as what ctrl_path_compare returns, and the full depth is
      an exact match. */
  lemma DepthOrder(p: string, q: string, r: string)
    requires |p| + 1 < INT_MAX
    ensures Matching(p, q) < Matching(p, r) <==> Depth(p, q) < Depth(p, r)
    ensures Matching(p, q) == INT_MAX <==> p == q
    ensures Depth(p, q) == |Elements(p)| + 1 <==> p == q
    ensures Depth(p, q) <= |Elements(p)| + 1
  {
    hide Common, Shared, Elements;
    SharedIsCommon(Elements(p), Elements(q));
    SharedIsCommon(Elements(p), Elements(r));
    ElementsInjective(p, q);
    ElementsInjective(p, r);
  }

  lemma DepthLaws(p: string, q: string, r: string)
    ensures Depth(p, q) == Depth(q, p)
    ensures Depth(p, r) >= Depth(p, q) || Depth(p, r) >= Depth(q, r)
  {
    hide Shared, Elements;
    SharedSymmetric(Elements(p), Elements(q));
    SharedUltra(Elements(p), Elements(q), Elements(r));
  }

  // ---------- Arrays of paths ----------

  /** Any leading elements that two sets share, all sets between them share too. */
  ghost predicate Contiguous(ps: seq<string>) {
    forall i, j, k | 0 <= i <= j <= k < |ps| :: Depth(ps[i], ps[k]) <= Depth(ps[i], ps[j])
  }

  /** Against any path the depth of agreement first rises and then falls. */
  lemma Unimodal(ps: seq<string>, q: string, i: nat, j: nat, k: nat)
    requires Contiguous(ps) && i <= j <= k < |ps|
    ensures Depth(q, ps[j]) >= Depth(q, ps[i]) || Depth(q, ps[j]) >= Depth(q, ps[k])
  {
    hide Depth;
    DepthLaws(q, ps[i], ps[j]);
    DepthLaws(q, ps[i], ps[k]);
    DepthLaws(ps[i], q, ps[k]);
    DepthLaws(ps[i], q, ps[j]);
  }

  /** A place for q: agreement rises before it, falls behind it, and differs on its two
      sides. */
  ghost predicate Place(ps: seq<string>, q: string, x: nat) {
    && x <= |ps|
    && (forall i, j | 0 <= i <= j < x :: Depth(q, ps[i]) <= Depth(q, ps[j]))
    && (forall i, j | x <= i <= j < |ps| :: Depth(q, ps[i]) >= Depth(q, ps[j]))
    && (0 < x < |ps| ==> Depth(q, ps[x - 1]) != Depth(q, ps[x]))
  }

  lemma BeforePlace(ps: seq<string>, q: string, x: nat, i: nat, j: nat)
    requires Place(ps, q, x) && i <= j < x
    ensures Depth(ps[i], q) <= Depth(ps[i], ps[j])
  {
    hide Depth;
    DepthLaws(ps[i], q, ps[j]);
    DepthLaws(q, ps[j], q);
  }

  lemma AcrossPlace(ps: seq<string>, q: string, x: nat, i: nat, k: nat)
    requires Contiguous(ps) && Place(ps, q, x) && i < x <= k < |ps|
    ensures Depth(ps[i], ps[k]) <= Depth(ps[i], q)
  {
    hide Depth;
    if Depth(ps[i], ps[k]) > Depth(ps[i], q) {
      SameDepth(ps[i], ps[x - 1], q);
      SameDepth(ps[i], ps[x], q);
      DepthLaws(q, ps[x], q);
      DepthLaws(q, ps[x - 1], q);
      assert false;
    }
  }

  lemma SameDepth(a: string, b: string, q: string)
    requires Depth(a, b) > Depth(a, q)
    ensures Depth(b, q) == Depth(a, q)
  {
    hide Depth;
    DepthLaws(a, b, q);
    DepthLaws(b, a, q);
  }

  function Insert<T>(s: seq<T>, x: nat, e: T): seq<T>
    requires x <= |s|
  {
    s[..x] + [e] + s[x..]
  }

  /** Putting a path in its place keeps sets with common elements side by side. */
  lemma InsertContiguous(ps: seq<string>, q: string, x: nat)
    requires Contiguous(ps) && x <= |ps| && Place(ps, q, x)
    ensures Contiguous(Insert(ps, x, q))
  {
    hide Depth, Contiguous, Place;
    var t := Insert(ps, x, q);
    forall i, j, k | 0 <= i <= j <= k < |t|
      ensures Depth(t[i], t[k]) <= Depth(t[i], t[j])
    {
      InsertTriple(ps, q, x, i, j, k);
    }
    IsContiguous(t);
  }

  lemma IsContiguous(ps: seq<string>)
    requires forall i, j, k | 0 <= i <= j <= k < |ps| :: Depth(ps[i], ps[k]) <= Depth(ps[i], ps[j])
    ensures Contiguous(ps)
  {
  }

  lemma InsertTriple(ps: seq<string>, q: string, x: nat, i: nat, j: nat, k: nat)
    requires Contiguous(ps) && Place(ps, q, x) && i <= j <= k <= |ps|
    ensures var t := Insert(ps, x, q); Depth(t[i], t[k]) <= Depth(t[i], t[j])
  {
    hide Depth;
    var t := Insert(ps, x, q);
    if i < x == j < k {
      AcrossPlace(ps, q, x, i, k - 1);
    } else if i <= j < x == k {
      BeforePlace(ps, q, x, i, j);
    } else if i == x == j {
      DepthSelf(q, t[k]);
    }
  }

  lemma DepthSelf(p: string, q: string)
    ensures Depth(p, q) <= Depth(p, p)
  {
    hide Shared, Elements, Common;
    SharedIsCommon(Elements(p), Elements(p));
  }

  // ---------- The search ----------

  /** How far the loop of ctrl_find_set has come without finding what it looks for. */
  ghost predicate Rising(ps: seq<string>, q: string, n: nat) {
    n <= |ps| && forall i | 0 < i < n :: Depth(q, ps[i - 1]) <= Depth(q, ps[i])
  }

  lemma {:induction false} RisesTo(ps: seq<string>, q: string, n: nat, i: nat, j: nat)
    requires Rising(ps, q, n) && i <= j < n
    ensures Depth(q, ps[i]) <= Depth(q, ps[j])
    decreases j
  {
    hide Depth;
    if i < j { RisesTo(ps, q, n, i, j - 1); }
  }

  /** The first fall is where agreement is over. */
  lemma FallIsPlace(ps: seq<string>, q: string, x: nat)
    requires Contiguous(ps) && Rising(ps, q, x) && 0 < x < |ps| && Depth(q, ps[x]) < Depth(q, ps[x - 1])
    ensures Place(ps, q, x) && Behind(ps, q, x)
  {
    hide Depth, Contiguous;
    forall i, j | 0 <= i <= j < x
      ensures Depth(q, ps[i]) <= Depth(q, ps[j])
    {
      RisesTo(ps, q, x, i, j);
    }
    forall i, j | x <= i <= j < |ps|
      ensures Depth(q, ps[i]) >= Depth(q, ps[j])
    {
      Unimodal(ps, q, x - 1, i, j);
      Unimodal(ps, q, x - 1, x, i);
    }
  }

  lemma EndIsPlace(ps: seq<string>, q: string)
    requires Rising(ps, q, |ps|)
    ensures Place(ps, q, |ps|)
  {
    hide Depth;
    forall i, j | 0 <= i <= j < |ps|
      ensures Depth(q, ps[i]) <= Depth(q, ps[j])
    {
      RisesTo(ps, q, |ps|, i, j);
    }
  }

  /** Nothing falls before an exact match. */
  lemma NoFallBefore(ps: seq<string>, q: string, x: nat, e: nat)
    requires Contiguous(ps) && 0 < x < e < |ps| && ps[e] == q
    ensures Depth(q, ps[x]) >= Depth(q, ps[x - 1])
  {
    hide Depth, Contiguous;
    Unimodal(ps, q, x - 1, x, e);
    DepthSelf(q, ps[x - 1]);
  }

  /** Exact matches stand together. */
  lemma ExactTogether(ps: seq<string>, i: nat, j: nat, k: nat)
    requires Contiguous(ps) && i <= j <= k < |ps| && ps[i] == ps[k]
    ensures ps[j] == ps[i]
  {
    hide Depth, Shared, Elements, Common;
    var p := ps[i];
    DepthSelf(p, ps[j]);
    FullDepth(p, ps[j]);
  }

  lemma FullDepth(p: string, q: string)
    ensures Depth(p, q) == Depth(p, p) <==> p == q
  {
    hide Shared, Elements, Common;
    SharedIsCommon(Elements(p), Elements(q));
    SharedIsCommon(Elements(p), Elements(p));
    ElementsInjective(p, q);
  }

  /** The first exact match is a place, and so is the one behind the last. */
  lemma ExactIsPlace(ps: seq<string>, q: string, x: nat)
    requires Contiguous(ps) && x <= |ps|
    requires (x < |ps| && ps[x] == q && (forall i | 0 <= i < x :: ps[i] != q))
          || (0 < x && ps[x - 1] == q && (forall i | x <= i < |ps| :: ps[i] != q))
    ensures Place(ps, q, x)
  {
    hide Depth, Contiguous;
    var e := if x < |ps| && ps[x] == q then x else x - 1;
    forall i, j | 0 <= i <= j < |ps| && (j <= e || e <= i)
      ensures if j <= e then Depth(q, ps[i]) <= Depth(q, ps[j]) else Depth(q, ps[i]) >= Depth(q, ps[j])
    {
      if j <= e { Unimodal(ps, q, i, j, e); } else { Unimodal(ps, q, e, i, j); }
      DepthSelf(q, ps[i]);
      DepthSelf(q, ps[j]);
    }
    if 0 < x < |ps| {
      FullDepth(q, ps[x - 1]);
      FullDepth(q, ps[x]);
    }
  }

  // ---------- The box ----------

  /** A control set; a title has no name and no columns. */
  datatype ControlSet = ControlSet(path: string, name: Option<string>, title: Option<string>, columns: nat)

  function Paths(sets: seq<ControlSet>): (ps: seq<string>)
    ensures |ps| == |sets| && forall i | 0 <= i < |sets| :: ps[i] == sets[i].path
  {
    if sets == [] then [] else Paths(sets[..|sets| - 1]) + [sets[|sets| - 1].path]
  }

  lemma {:induction false} PathsInsert(sets: seq<ControlSet>, x: nat, s: ControlSet)
    requires x <= |sets|
    ensures Paths(Insert(sets, x, s)) == Insert(Paths(sets), x, s.path)
  {
  }

  /** Everything from x on agrees less than what is before x. */
  ghost predicate Behind(ps: seq<string>, q: string, x: nat) {
    forall i | x <= i < |ps| :: x > 0 && Depth(q, ps[i]) < Depth(q, ps[x - 1])
  }

  /** The first set of a path; or else the place behind the sets that agree most. */
  ghost predicate FirstOrPlace(ps: seq<string>, q: string, x: nat) {
    && Place(ps, q, x)
    && (forall i | 0 <= i < x :: ps[i] != q)
    && (if q in ps then x < |ps| && ps[x] == q else Behind(ps, q, x))
  }

  /** The index past all sets of a path; or else the place behind those that agree most. */
  ghost predicate LastOrPlace(ps: seq<string>, q: string, x: nat) {
    && Place(ps, q, x)
    && (forall i | x <= i < |ps| :: ps[i] != q)
    && (if q in ps then x > 0 && ps[x - 1] == q else Behind(ps, q, x))
  }

  /** ctrl_find_set, the way it is always called. */
  method FindSet(sets: seq<ControlSet>, path: string) returns (x: nat)
    requires |path| + 1 < INT_MAX && Contiguous(Paths(sets))
    ensures FirstOrPlace(Paths(sets), path, x)
  {
    hide Depth, Contiguous, Place, Elements, Paths, Matching;
    ghost var ps := Paths(sets);
    var last := 0;
    x := 0;
    while x < |sets|
      invariant x <= |sets| && Rising(ps, path, x) && (forall i | 0 <= i < x :: ps[i] != path)
      invariant last == if x == 0 then 0 else Matching(path, ps[x - 1])
    {
      var thisone := PathCompare(path, sets[x].path);
      DepthOrder(path, ps[x], if x > 0 then ps[x - 1] else path);
      if thisone == INT_MAX || thisone < last {
        Stopped(ps, path, x);
        return;
      }
      last := thisone;
      x := x + 1;
    }
    EndIsPlace(ps, path);
  }

  lemma Stopped(ps: seq<string>, q: string, x: nat)
    requires Contiguous(ps) && x < |ps| && Rising(ps, q, x) && (forall i | 0 <= i < x :: ps[i] != q)
    requires ps[x] == q || (x > 0 && Depth(q, ps[x]) < Depth(q, ps[x - 1]))
    ensures FirstOrPlace(ps, q, x)
  {
    hide Depth, Contiguous, Place;
    if ps[x] == q {
      ExactIsPlace(ps, q, x);
    } else {
      FallIsPlace(ps, q, x);
      forall e | 0 <= e < |ps|
        ensures ps[e] != q
      {
        if e > x && ps[e] == q { NoFallBefore(ps, q, x, e); }
      }
    }
  }

  /** ctrl_find_path; -1 stands for no set, and for the start. */
  method FindPath(sets: seq<ControlSet>, path: string, index: int) returns (x: int)
    requires |path| + 1 < INT_MAX && Contiguous(Paths(sets))
    ensures x == Next(Paths(sets), path, index)
  {
    hide Contiguous, Place, Paths;
    ghost var ps := Paths(sets);
    if index < 0 {
      x := FindSet(sets, path);
      FirstIsNext(ps, path, x);
    } else {
      x := index + 1;
    }
    if x < |sets| && path == sets[x].path {
      return;
    } else {
      x := -1;
    }
  }

  /** The first index of a path, and after an index the next one if it is of that path. */
  function Next(ps: seq<string>, q: string, index: int): int {
    var x := if index < 0 then First(ps, q) else index + 1;
    if x < |ps| && ps[x] == q then x else -1
  }

  function First(ps: seq<string>, q: string): (x: nat)
    ensures x <= |ps| && (forall i | 0 <= i < x :: ps[i] != q) && (x < |ps| ==> ps[x] == q)
  {
    if ps == [] || ps[0] == q then 0
    else
      var x := First(ps[1..], q);
      assert forall i | 1 <= i < 1 + x :: ps[i] == ps[1..][i - 1];
      1 + x
  }

  lemma FirstIsNext(ps: seq<string>, q: string, x: nat)
    requires FirstOrPlace(ps, q, x)
    ensures (x < |ps| && ps[x] == q) <==> Next(ps, q, -1) >= 0
    ensures x < |ps| && ps[x] == q ==> Next(ps, q, -1) == x
  {
  }

  /** Asking again and again, from -1 until -1, gives the index of every set of the path,
      each of them once. */
  method FindAll(sets: seq<ControlSet>, path: string) returns (found: seq<int>)
    requires |path| + 1 < INT_MAX && Contiguous(Paths(sets))
    ensures forall i | 0 <= i < |sets| :: sets[i].path == path <==> i in found
    ensures forall i, j | 0 <= i < j < |found| :: 0 <= found[i] < found[j] < |sets|
  {
    hide Contiguous, Place, Paths, First;
    ghost var ps := Paths(sets);
    found := [];
    var x := FindPath(sets, path, -1);
    var first := x;
    while x >= 0
      invariant x < |sets| && (x >= 0 ==> ps[x] == path && x == first + |found|)
      invariant x < 0 ==> first < 0 || NoneBehind(ps, path, first + |found|)
      invariant first == Next(ps, path, -1) && (first < 0 ==> found == [] && x < 0)
      invariant Run(ps, path, first, found)
      decreases if x < 0 then 0 else |sets| - x
    {
      found := found + [x];
      var y := FindPath(sets, path, x);
      if y < 0 { OverHere(ps, path, x); }
      x := y;
    }
    Enumerated(ps, path, first, found);
  }

  /** The indices from first on, all of that path. */
  ghost predicate Run(ps: seq<string>, q: string, first: int, found: seq<int>) {
    forall i | 0 <= i < |found| :: found[i] == first + i && 0 <= found[i] < |ps| && ps[found[i]] == q
  }

  ghost predicate NoneBehind(ps: seq<string>, q: string, x: int) {
    forall i | 0 <= i < |ps| && x <= i :: ps[i] != q
  }

  lemma OverHere(ps: seq<string>, q: string, x: nat)
    requires Contiguous(ps) && x < |ps| && ps[x] == q && Next(ps, q, x) < 0
    ensures NoneBehind(ps, q, x + 1)
  {
    hide Contiguous;
    forall i | 0 <= i < |ps| && x + 1 <= i
      ensures ps[i] != q
    {
      if ps[i] == q { ExactTogether(ps, x, x + 1, i); }
    }
  }

  lemma Enumerated(ps: seq<string>, q: string, first: int, found: seq<int>)
    requires first == Next(ps, q, -1) && (first < 0 ==> found == [])
    requires first >= 0 ==> NoneBehind(ps, q, first + |found|)
    requires Run(ps, q, first, found)
    ensures forall i | 0 <= i < |ps| :: ps[i] == q <==> i in found
  {
    forall i | 0 <= i < |ps|
      ensures ps[i] == q <==> i in found
    {
      if ps[i] == q {
        assert first <= i;
        assert found[i - first] == i;
      }
    }
  }

  /** struct controlbox */
  class Box {
    var sets: seq<ControlSet>

    ghost predicate Valid()
      reads this
    {
      Contiguous(Paths(sets))
    }

    constructor ()
      ensures Valid() && sets == []
    {
      sets := [];
    }

    /** The insertion shared by ctrl_settitle and ctrl_getset: the sets from x on are moved
        up by one. */
    method InsertAt(x: nat, s: ControlSet)
      requires Valid() && x <= |sets| && Place(Paths(sets), s.path, x)
      modifies this
      ensures Valid() && sets == Insert(old(sets), x, s)
    {
      hide Contiguous, Place;
      PathsInsert(sets, x, s);
      InsertContiguous(Paths(sets), s.path, x);
      sets := sets[..x] + [s] + sets[x..];
    }

    /** ctrl_settitle: a title, in front of the sets of its path. */
    method SetTitle(path: string, title: string) returns (x: nat)
      requires Valid() && |path| + 1 < INT_MAX
      modifies this
      ensures Valid() && x <= |old(sets)| && FirstOrPlace(Paths(old(sets)), path, x)
      ensures sets == Insert(old(sets), x, ControlSet(path, None, Some(title), 0))
    {
      hide Contiguous, Place;
      x := FindSet(sets, path);
      PlaceBound(Paths(sets), path, x);
      InsertAt(x, ControlSet(path, None, Some(title), 0));
    }

    /** ctrl_getset: the set of that path and name; made, behind the others of its path, if
        there is none. */
    method GetSet(path: string, name: string, title: Option<string>) returns (x: nat)
      requires Valid() && |path| + 1 < INT_MAX
      modifies this
      ensures Valid() && x < |sets| && sets[x].path == path && sets[x].name == Some(name)
      ensures Named(old(sets), path, name) ==> sets == old(sets) && !Named(sets[..x], path, name)
      ensures !Named(old(sets), path, name) ==>
                && x <= |old(sets)| && LastOrPlace(Paths(old(sets)), path, x)
                && sets == Insert(old(sets), x, ControlSet(path, Some(name), title, 1))
    {
      hide Contiguous, Place, Paths;
      ghost var ps := Paths(sets);
      x := FindSet(sets, path);
      PlaceBound(ps, path, x);
      ghost var first := x;
      while x < |sets| && sets[x].path == path
        invariant first <= x <= |sets| && forall i | first <= i < x :: ps[i] == path
        invariant !Named(sets[..x], path, name)
      {
        if sets[x].name == Some(name) {
          return;
        }
        assert sets[..x + 1] == sets[..x] + [sets[x]];
        x := x + 1;
      }
      BehindLast(ps, path, first, x);
      NotNamed(sets, path, name, x);
      InsertAt(x, ControlSet(path, Some(name), title, 1));
    }
  }

  ghost predicate Named(sets: seq<ControlSet>, path: string, name: string) {
    exists s :: s in sets && s.path == path && s.name == Some(name)
  }

  lemma PlaceBound(ps: seq<string>, q: string, x: nat)
    requires Place(ps, q, x)
    ensures x <= |ps|
  {
  }

  lemma BehindLast(ps: seq<string>, q: string, first: nat, x: nat)
    requires Contiguous(ps) && FirstOrPlace(ps, q, first) && first <= x <= |ps|
    requires (forall i | first <= i < x :: ps[i] == q) && (x < |ps| ==> ps[x] != q)
    ensures LastOrPlace(ps, q, x)
  {
    hide Contiguous, Place;
    if x > first {
      forall i | x <= i < |ps|
        ensures ps[i] != q
      {
        if ps[i] == q { ExactTogether(ps, first, x, i); }
      }
      ExactIsPlace(ps, q, x);
    }
  }

  lemma NotNamed(sets: seq<ControlSet>, path: string, name: string, x: nat)
    requires x <= |sets| && !Named(sets[..x], path, name) && LastOrPlace(Paths(sets), path, x)
    ensures !Named(sets, path, name)
  {
  }
}
