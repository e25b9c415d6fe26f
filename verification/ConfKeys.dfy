/** The keys and values of external/putty/conf.c, the order on keys, and a tree234 as a
    sorted sequence of entries. */
module ConfKeys {
  import opened Bytes

  datatype Type = TypeNone | TypeInt | TypeStr | TypeFilename | TypeFont

  predicate IsInt(i: int) { -0x8000_0000 <= i < 0x8000_0000 }

  /** A C string: no byte is zero. */
  predicate IsStr(s: seq<byte>) { forall i | 0 <= i < |s| :: s[i] != 0 }

  /** The secondary part of a key. */
  datatype Sub = NoSub | IntSub(i: int) | StrSub(s: seq<byte>)
  {
    predicate Fits(t: Type) {
      match t
      case TypeInt => IntSub? && IsInt(i)
      case TypeStr => StrSub? && IsStr(s)
      case _ => NoSub?
    }
  }

  datatype Key = Key(primary: nat, sub: Sub)

  datatype Value =
    | IntValue(i: int)
    | StrValue(s: seq<byte>)
    | FileValue(path: seq<byte>)
    | FontValue(name: seq<byte>, bold: int, height: int, charset: int)
  {
    predicate Fits(t: Type) {
      match t
      case TypeInt => IntValue? && IsInt(i)
      case TypeStr => StrValue? && IsStr(s)
      case TypeFilename => FileValue? && IsStr(path)
      case TypeFont => FontValue? && IsStr(name) && IsInt(bold) && IsInt(height) && IsInt(charset)
      case TypeNone => false
    }
  }

  datatype Entry = Entry(key: Key, value: Value)

  /** The two tables that give the types of every primary key. */
  datatype Schema = Schema(subkeys: seq<Type>, values: seq<Type>)
  {
    predicate Valid() {
      && |subkeys| == |values| < 0x8000_0000
      && (forall i | 0 <= i < |subkeys| :: subkeys[i] in {TypeNone, TypeInt, TypeStr})
      && forall i | 0 <= i < |values| :: values[i] != TypeNone
    }

    function SubkeyType(primary: nat): Type {
      if primary < |subkeys| then subkeys[primary] else TypeNone
    }

    function ValueType(primary: nat): Type {
      if primary < |values| then values[primary] else TypeNone
    }

    predicate Typed(k: Key) {
      k.primary < |subkeys| && k.sub.Fits(SubkeyType(k.primary))
    }

    predicate TypedEntry(e: Entry) {
      Typed(e.key) && e.value.Fits(ValueType(e.key.primary))
    }

    predicate TypedEntries(es: seq<Entry>) {
      forall i | 0 <= i < |es| :: TypedEntry(es[i])
    }
  }

  // ---------- The order ----------

  function Strcmp(a: seq<byte>, b: seq<byte>): int {
    if a == [] && b == [] then 0
    else if a == [] then -1
    else if b == [] then 1
    else if a[0] < b[0] then -1
    else if a[0] > b[0] then 1
    else Strcmp(a[1..], b[1..])
  }

  lemma {:induction false} StrcmpZero(a: seq<byte>, b: seq<byte>)
    ensures Strcmp(a, b) == 0 <==> a == b
  {
    if a != [] && b != [] && a[0] == b[0] {
      StrcmpZero(a[1..], b[1..]);
      assert a == [a[0]] + a[1..] && b == [b[0]] + b[1..];
    }
  }

  lemma {:induction false} StrcmpFlip(a: seq<byte>, b: seq<byte>)
    ensures Strcmp(b, a) == -Strcmp(a, b)
  {
    if a != [] && b != [] && a[0] == b[0] { StrcmpFlip(a[1..], b[1..]); }
  }

  lemma {:induction false} StrcmpChain(a: seq<byte>, b: seq<byte>, c: seq<byte>)
    requires Strcmp(a, b) < 0 && Strcmp(b, c) < 0
    ensures Strcmp(a, c) < 0
  {
    if a != [] && b != [] && c != [] && a[0] == b[0] == c[0] { StrcmpChain(a[1..], b[1..], c[1..]); }
  }

  /** conf_cmp; the schema says which member of the union is looked at. */
  function Compare(schema: Schema, a: Key, b: Key): int {
    if a.primary < b.primary then -1
    else if a.primary > b.primary then 1
    else
      match schema.SubkeyType(a.primary)
      case TypeInt =>
        if !a.sub.IntSub? || !b.sub.IntSub? then 0
        else if a.sub.i < b.sub.i then -1
        else if a.sub.i > b.sub.i then 1
        else 0
      case TypeStr =>
        if !a.sub.StrSub? || !b.sub.StrSub? then 0 else Strcmp(a.sub.s, b.sub.s)
      case _ => 0
  }

  /** conf_cmp is a total order on well-typed keys. */
  lemma CompareIsTotalOrder(schema: Schema, a: Key, b: Key, c: Key)
    requires schema.Typed(a) && schema.Typed(b) && schema.Typed(c)
    ensures Compare(schema, a, b) == 0 <==> a == b
    ensures Compare(schema, b, a) == -Compare(schema, a, b)
    ensures Compare(schema, a, b) < 0 && Compare(schema, b, c) < 0 ==> Compare(schema, a, c) < 0
  {
    hide Strcmp, IsStr;
    if a.sub.StrSub? && b.sub.StrSub? {
      StrcmpZero(a.sub.s, b.sub.s);
      StrcmpFlip(a.sub.s, b.sub.s);
      if c.sub.StrSub? && Strcmp(a.sub.s, b.sub.s) < 0 && Strcmp(b.sub.s, c.sub.s) < 0 {
        StrcmpChain(a.sub.s, b.sub.s, c.sub.s);
      }
    }
  }

  // ---------- Sorted sequences ----------

  /** In order, and so without two entries of one key. */
  ghost predicate Sorted(schema: Schema, tree: seq<Entry>) {
    forall i, j | 0 <= i < j < |tree| :: Compare(schema, tree[i].key, tree[j].key) < 0
  }

  /** What a tree can be. */
  ghost predicate Tree(schema: Schema, tree: seq<Entry>) {
    schema.TypedEntries(tree) && Sorted(schema, tree)
  }

  /** findrelpos234: the first place with a key not less than k, or greater than k. */
  function Find(schema: Schema, tree: seq<Entry>, k: Key, greater: bool): (p: nat)
    ensures p <= |tree|
    ensures forall i | 0 <= i < p :: Compare(schema, tree[i].key, k) < if greater then 1 else 0
    ensures p < |tree| ==> Compare(schema, tree[p].key, k) >= if greater then 1 else 0
  {
    if tree == [] || Compare(schema, tree[0].key, k) >= (if greater then 1 else 0) then 0
    else
      var p := Find(schema, tree[1..], k, greater);
      assert forall i | 1 <= i < 1 + p :: tree[i] == tree[1..][i - 1];
      1 + p
  }

  predicate Has(schema: Schema, tree: seq<Entry>, k: Key) {
    var p := Find(schema, tree, k, false);
    p < |tree| && Compare(schema, tree[p].key, k) == 0
  }

  /** The tree with an entry put in or replaced. */
  function Put(schema: Schema, tree: seq<Entry>, e: Entry): seq<Entry> {
    var p := Find(schema, tree, e.key, false);
    if Has(schema, tree, e.key) then tree[p := e] else tree[..p] + [e] + tree[p..]
  }

  function Without(schema: Schema, tree: seq<Entry>, k: Key): seq<Entry> {
    var p := Find(schema, tree, k, false);
    if Has(schema, tree, k) then tree[..p] + tree[p + 1..] else tree
  }

  /** The map that a tree stands for. */
  ghost function Contents(tree: seq<Entry>): map<Key, Value> {
    if tree == [] then map[]
    else Contents(tree[..|tree| - 1])[tree[|tree| - 1].key := tree[|tree| - 1].value]
  }

  lemma {:induction false} ContentsKeys(tree: seq<Entry>, k: Key)
    ensures k in Contents(tree) <==> exists i :: 0 <= i < |tree| && tree[i].key == k
  {
    if tree != [] {
      var n := |tree| - 1;
      ContentsKeys(tree[..n], k);
      if k in Contents(tree[..n]) {
        var i :| 0 <= i < n && tree[..n][i].key == k;
        assert tree[i].key == k;
      }
      if i :| 0 <= i < |tree| && tree[i].key == k && i < n {
        assert tree[..n][i].key == k;
      }
    }
  }

  lemma {:induction false} ContentsAt(schema: Schema, tree: seq<Entry>, i: nat)
    requires Tree(schema, tree) && i < |tree|
    ensures tree[i].key in Contents(tree) && Contents(tree)[tree[i].key] == tree[i].value
  {
    hide Compare;
    var n := |tree| - 1;
    if i < n {
      ContentsAt(schema, tree[..n], i);
      CompareIsTotalOrder(schema, tree[i].key, tree[n].key, tree[n].key);
    }
  }

  /** A tree holds an entry exactly when its map does. */
  lemma ContentsIff(schema: Schema, tree: seq<Entry>, k: Key, v: Value)
    requires Tree(schema, tree)
    ensures (k in Contents(tree) && Contents(tree)[k] == v) <==> Entry(k, v) in tree
  {
    hide Contents, Tree, Compare;
    ContentsKeys(tree, k);
    if k in Contents(tree) {
      var i :| 0 <= i < |tree| && tree[i].key == k;
      ContentsAt(schema, tree, i);
      assert tree[i] == Entry(k, tree[i].value);
    }
    if Entry(k, v) in tree {
      var i :| 0 <= i < |tree| && tree[i] == Entry(k, v);
      ContentsAt(schema, tree, i);
    }
  }

  lemma SameContents(schema: Schema, t: seq<Entry>, m: map<Key, Value>)
    requires Tree(schema, t)
    requires forall k, v :: (k in m && m[k] == v) <==> Entry(k, v) in t
    ensures Contents(t) == m
  {
    hide Contents, Tree;
    forall k
      ensures k in Contents(t) <==> k in m
      ensures k in m ==> Contents(t)[k] == m[k]
    {
      if k in Contents(t) { ContentsIff(schema, t, k, Contents(t)[k]); }
      if k in m { ContentsIff(schema, t, k, m[k]); }
    }
  }

  /** Behind the place found, everything is greater. */
  lemma FindSplits(schema: Schema, tree: seq<Entry>, k: Key)
    requires Tree(schema, tree) && schema.Typed(k)
    ensures var p := Find(schema, tree, k, false);
            && (forall i | 0 <= i < p :: Compare(schema, tree[i].key, k) < 0)
            && (forall i | p < i < |tree| :: Compare(schema, k, tree[i].key) < 0)
            && (p < |tree| && !Has(schema, tree, k) ==> Compare(schema, k, tree[p].key) < 0)
            && (Has(schema, tree, k) ==> tree[p].key == k)
  {
    hide Compare, Find;
    var p := Find(schema, tree, k, false);
    if p < |tree| {
      CompareIsTotalOrder(schema, k, tree[p].key, k);
      forall i | p < i < |tree|
        ensures Compare(schema, k, tree[i].key) < 0
      {
        CompareIsTotalOrder(schema, k, tree[p].key, tree[i].key);
      }
    }
  }

  /** Has is membership. */
  lemma HasIff(schema: Schema, tree: seq<Entry>, k: Key)
    requires Tree(schema, tree) && schema.Typed(k)
    ensures Has(schema, tree, k) <==> k in Contents(tree)
  {
    hide Compare, Find, Contents;
    FindSplits(schema, tree, k);
    ContentsKeys(tree, k);
    CompareIsTotalOrder(schema, k, k, k);
  }

  lemma PutIsTree(schema: Schema, tree: seq<Entry>, e: Entry)
    requires Tree(schema, tree) && schema.TypedEntry(e)
    ensures Tree(schema, Put(schema, tree, e))
  {
    hide Compare, Find;
    FindSplits(schema, tree, e.key);
    if !Has(schema, tree, e.key) {
      Inserted(schema, tree, e, Find(schema, tree, e.key, false));
    }
  }

  lemma Inserted(schema: Schema, tree: seq<Entry>, e: Entry, p: nat)
    requires Tree(schema, tree) && schema.TypedEntry(e) && p <= |tree|
    requires forall i | 0 <= i < p :: Compare(schema, tree[i].key, e.key) < 0
    requires forall i | p <= i < |tree| :: Compare(schema, e.key, tree[i].key) < 0
    ensures Tree(schema, tree[..p] + [e] + tree[p..])
  {
    hide Compare;
  }

  lemma PutKeeps(schema: Schema, tree: seq<Entry>, e: Entry, x: Entry)
    requires Tree(schema, tree) && schema.TypedEntry(e)
    ensures x == e || (x in tree && x.key != e.key) ==> x in Put(schema, tree, e)
  {
    hide Compare, Find;
    FindSplits(schema, tree, e.key);
    var p := Find(schema, tree, e.key, false);
    var now := Put(schema, tree, e);
    if x == e {
      assert now[p] == e;
    } else if x in tree && x.key != e.key {
      var i :| 0 <= i < |tree| && tree[i] == x;
      assert x == if Has(schema, tree, e.key) || i < p then now[i] else now[i + 1];
    }
  }

  lemma PutAdds(schema: Schema, tree: seq<Entry>, e: Entry, x: Entry)
    requires Tree(schema, tree) && schema.TypedEntry(e) && x in Put(schema, tree, e) && x != e
    ensures x in tree && x.key != e.key
  {
    hide Compare, Find;
    FindSplits(schema, tree, e.key);
    var p := Find(schema, tree, e.key, false);
    var now := Put(schema, tree, e);
    var i :| 0 <= i < |now| && now[i] == x;
    var j := if Has(schema, tree, e.key) || i < p then i else i - 1;
    assert tree[j] == x;
    CompareIsTotalOrder(schema, e.key, e.key, e.key);
  }

  lemma PutMembers(schema: Schema, tree: seq<Entry>, e: Entry, x: Entry)
    requires Tree(schema, tree) && schema.TypedEntry(e)
    ensures x in Put(schema, tree, e) <==> x == e || (x in tree && x.key != e.key)
  {
    hide Put, Tree;
    PutKeeps(schema, tree, e, x);
    if x in Put(schema, tree, e) && x != e { PutAdds(schema, tree, e, x); }
  }

  /** Last write wins: the map of the tree is the old one with the key set. */
  lemma PutIsUpdate(schema: Schema, tree: seq<Entry>, e: Entry)
    requires Tree(schema, tree) && schema.TypedEntry(e)
    ensures Tree(schema, Put(schema, tree, e))
    ensures Contents(Put(schema, tree, e)) == Contents(tree)[e.key := e.value]
  {
    hide Contents, Put, Tree;
    var now := Put(schema, tree, e);
    PutIsTree(schema, tree, e);
    var m := Contents(tree)[e.key := e.value];
    forall k, v
      ensures (k in m && m[k] == v) <==> Entry(k, v) in now
    {
      PutMembers(schema, tree, e, Entry(k, v));
      ContentsIff(schema, tree, k, v);
    }
    SameContents(schema, now, m);
  }

  lemma WithoutIsTree(schema: Schema, tree: seq<Entry>, k: Key)
    requires Tree(schema, tree)
    ensures Tree(schema, Without(schema, tree, k))
  {
  }

  lemma WithoutMembers(schema: Schema, tree: seq<Entry>, k: Key, x: Entry)
    requires Tree(schema, tree) && schema.Typed(k)
    ensures x in Without(schema, tree, k) <==> x in tree && x.key != k
  {
    hide Compare, Find;
    FindSplits(schema, tree, k);
    var p := Find(schema, tree, k, false);
    var now := Without(schema, tree, k);
    CompareIsTotalOrder(schema, k, k, k);
    if x in tree {
      var i :| 0 <= i < |tree| && tree[i] == x;
      if x.key != k {
        assert x == if Has(schema, tree, k) && i > p then now[i - 1] else now[i];
      }
    }
  }

  lemma WithoutIsRemoval(schema: Schema, tree: seq<Entry>, k: Key)
    requires Tree(schema, tree) && schema.Typed(k)
    ensures Tree(schema, Without(schema, tree, k))
    ensures Contents(Without(schema, tree, k)) == Contents(tree) - {k}
  {
    hide Contents, Without, Tree;
    var now := Without(schema, tree, k);
    WithoutIsTree(schema, tree, k);
    var m := Contents(tree) - {k};
    forall j, v
      ensures (j in m && m[j] == v) <==> Entry(j, v) in now
    {
      WithoutMembers(schema, tree, k, Entry(j, v));
      ContentsIff(schema, tree, j, v);
    }
    SameContents(schema, now, m);
  }

  /** Putting in entries one after the other. */
  function PutAll(schema: Schema, tree: seq<Entry>, es: seq<Entry>): seq<Entry> {
    if es == [] then tree else Put(schema, PutAll(schema, tree, es[..|es| - 1]), es[|es| - 1])
  }

  lemma PutLast(schema: Schema, tree: seq<Entry>, e: Entry)
    requires Tree(schema, tree + [e])
    ensures Put(schema, tree, e) == tree + [e]
  {
    hide Compare;
    forall i | 0 <= i < |tree|
      ensures Compare(schema, tree[i].key, e.key) < 0
    {
      assert (tree + [e])[i] == tree[i] && (tree + [e])[|tree|] == e;
    }
  }

  /** The entries of a tree, put one by one into an empty one, give the tree. */
  lemma {:induction false} PutAllInOrder(schema: Schema, tree: seq<Entry>)
    requires Tree(schema, tree)
    ensures PutAll(schema, [], tree) == tree
  {
    hide Put;
    if tree != [] {
      var n := |tree| - 1;
      TreePrefix(schema, tree, n);
      PutAllInOrder(schema, tree[..n]);
      assert tree[..n] + [tree[n]] == tree;
      PutLast(schema, tree[..n], tree[n]);
    }
  }

  lemma TreePrefix(schema: Schema, tree: seq<Entry>, n: nat)
    requires Tree(schema, tree) && n <= |tree|
    ensures Tree(schema, tree[..n])
  {
  }
}
