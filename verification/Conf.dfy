/** The configuration object of external/putty/conf.c. The tree234 inside it is a sorted
    sequence that the methods reassign. */
module Conf {
  import opened Bytes
  import opened ConfFormat
  import opened ConfKeys
  import opened Wrappers

  // ---------- Reading a configuration ----------

  /** find234, as conf_get_str_str_opt and the mandatory accessors use it. */
  function Get(schema: Schema, tree: seq<Entry>, k: Key): Option<Value> {
    if Has(schema, tree, k) then Some(tree[Find(schema, tree, k, false)].value) else None
  }

  /** A lookup agrees with the map. */
  lemma GetIsLookup(schema: Schema, tree: seq<Entry>, k: Key)
    requires Tree(schema, tree) && schema.Typed(k)
    ensures Get(schema, tree, k) == if k in Contents(tree) then Some(Contents(tree)[k]) else None
  {
    HasIff(schema, tree, k);
    hide Contents, Find, Compare, Tree;
    if Has(schema, tree, k) {
      FindSplits(schema, tree, k);
      ContentsAt(schema, tree, Find(schema, tree, k, false));
    }
  }

  /** conf_get_str_strs: the subkey after the given one, or the first. */
  function NextSubkey(schema: Schema, tree: seq<Entry>, primary: nat, from: Option<seq<byte>>): Option<seq<byte>> {
    var p := match from
             case None => Find(schema, tree, Key(primary, StrSub([])), false)
             case Some(s) => Find(schema, tree, Key(primary, StrSub(s)), true);
    SubkeyAt(tree, primary, p)
  }

  /** The subkey at a place of the tree, if it belongs to this primary key. */
  function SubkeyAt(tree: seq<Entry>, primary: nat, p: int): Option<seq<byte>> {
    if 0 <= p < |tree| && tree[p].key.primary == primary && tree[p].key.sub.StrSub? then Some(tree[p].key.sub.s)
    else None
  }

  /** conf_get_str_nthstrkey */
  function NthSubkey(schema: Schema, tree: seq<Entry>, primary: nat, n: int): Option<seq<byte>> {
    var p := Find(schema, tree, Key(primary, StrSub([])), false);
    if SubkeyAt(tree, primary, p).None? then None else SubkeyAt(tree, primary, p + n)
  }

  /** All subkeys of a primary key, in the order of the tree. */
  function Subkeys(tree: seq<Entry>, primary: nat): seq<seq<byte>> {
    if tree == [] then []
    else
      var init := Subkeys(tree[..|tree| - 1], primary);
      var k := tree[|tree| - 1].key;
      if k.primary == primary && k.sub.StrSub? then init + [k.sub.s] else init
  }

  /** The subkeys stand side by side from start on, and nowhere else. */
  ghost predicate Block(tree: seq<Entry>, primary: nat, start: nat, count: nat) {
    && start + count <= |tree|
    && forall i | 0 <= i < |tree| :: (start <= i < start + count <==> tree[i].key.primary == primary)
  }

  lemma {:induction false} SubkeysBefore(tree: seq<Entry>, primary: nat)
    requires forall i | 0 <= i < |tree| :: tree[i].key.primary != primary
    ensures Subkeys(tree, primary) == []
  {
    if tree != [] { SubkeysBefore(tree[..|tree| - 1], primary); }
  }

  lemma {:induction false} SubkeysOfBlock(schema: Schema, tree: seq<Entry>, primary: nat, start: nat, count: nat)
    requires schema.TypedEntries(tree) && schema.SubkeyType(primary) == TypeStr && Block(tree, primary, start, count)
    ensures |Subkeys(tree, primary)| == count
    ensures forall j | start <= j < start + count :: tree[j].key == Key(primary, StrSub(Subkeys(tree, primary)[j - start]))
  {
    hide IsStr, IsInt;
    if tree != [] {
      var n := |tree| - 1;
      assert schema.TypedEntry(tree[n]);
      if start <= n < start + count {
        assert start + count == n + 1;
        assert Block(tree[..n], primary, start, count - 1);
        SubkeysOfBlock(schema, tree[..n], primary, start, count - 1);
      } else {
        if count == 0 {
          assert Block(tree[..n], primary, 0, 0);
          SubkeysBefore(tree, primary);
        } else {
          assert Block(tree[..n], primary, start, count);
          SubkeysOfBlock(schema, tree[..n], primary, start, count);
        }
      }
    }
  }

  /** From the place where the first subkey is looked for, the subkeys are a block. */
  lemma {:induction false} BlockExists(schema: Schema, tree: seq<Entry>, primary: nat) returns (count: nat)
    requires Tree(schema, tree) && schema.SubkeyType(primary) == TypeStr && primary < |schema.subkeys|
    ensures Block(tree, primary, Find(schema, tree, Key(primary, StrSub([])), false), count)
  {
    hide Compare, Find;
    var k := Key(primary, StrSub([]));
    var p := Find(schema, tree, k, false);
    count := 0;
    PrimariesAscend(schema, tree);
    forall i | 0 <= i < p
      ensures tree[i].key.primary < primary
    {
      BelowFirst(schema, tree[i].key, primary);
    }
    forall i | p <= i < |tree|
      ensures tree[i].key.primary >= primary
    {
      NotBelowFirst(schema, tree[p].key, primary);
    }
    while p + count < |tree| && tree[p + count].key.primary == primary
      invariant p + count <= |tree|
      invariant forall i | p <= i < p + count :: tree[i].key.primary == primary
    {
      count := count + 1;
    }
  }

  lemma PrimariesAscend(schema: Schema, tree: seq<Entry>)
    requires Tree(schema, tree)
    ensures forall i, j | 0 <= i <= j < |tree| :: tree[i].key.primary <= tree[j].key.primary
  {
  }

  lemma BelowFirst(schema: Schema, k: Key, primary: nat)
    requires schema.Typed(k) && schema.SubkeyType(primary) == TypeStr
    requires Compare(schema, k, Key(primary, StrSub([]))) < 0
    ensures k.primary < primary
  {
  }

  lemma NotBelowFirst(schema: Schema, k: Key, primary: nat)
    requires Compare(schema, k, Key(primary, StrSub([]))) >= 0
    ensures k.primary >= primary
  {
  }

  /** The n-th subkey, and none outside the range. */
  lemma NthIsSubkey(schema: Schema, tree: seq<Entry>, primary: nat, n: int)
    requires Tree(schema, tree) && primary < |schema.subkeys| && schema.SubkeyType(primary) == TypeStr
    ensures var all := Subkeys(tree, primary);
            NthSubkey(schema, tree, primary, n) == if 0 <= n < |all| then Some(all[n]) else None
  {
    hide Find, Subkeys, Compare;
    var count := BlockExists(schema, tree, primary);
    var start := Find(schema, tree, Key(primary, StrSub([])), false);
    SubkeysOfBlock(schema, tree, primary, start, count);
  }

  /** The subkey after the n-th one is the next one. */
  lemma NextIsSubkey(schema: Schema, tree: seq<Entry>, primary: nat, n: nat)
    requires Tree(schema, tree) && primary < |schema.subkeys| && schema.SubkeyType(primary) == TypeStr
    requires n <= |Subkeys(tree, primary)|
    ensures var all := Subkeys(tree, primary);
            var from := if n == 0 then None else Some(all[n - 1]);
            NextSubkey(schema, tree, primary, from) == if n < |all| then Some(all[n]) else None
  {
    hide Find, Subkeys, Compare;
    var all := Subkeys(tree, primary);
    var count := BlockExists(schema, tree, primary);
    var start := Find(schema, tree, Key(primary, StrSub([])), false);
    SubkeysOfBlock(schema, tree, primary, start, count);
    if n > 0 {
      FindAfter(schema, tree, start + n - 1);
      assert tree[start + (n - 1)].key == Key(primary, StrSub(all[n - 1]));
    }
  }

  /** Looking for a greater key than one of the tree leads to the next place. */
  lemma FindAfter(schema: Schema, tree: seq<Entry>, i: nat)
    requires Tree(schema, tree) && i < |tree|
    ensures Find(schema, tree, tree[i].key, true) == i + 1
  {
    hide Compare, Find;
    var p := Find(schema, tree, tree[i].key, true);
    CompareIsTotalOrder(schema, tree[i].key, tree[i].key, tree[i].key);
    if i + 1 < p {
      CompareIsTotalOrder(schema, tree[i].key, tree[i + 1].key, tree[i].key);
    }
  }

  lemma {:induction false} SubkeysAscend(schema: Schema, tree: seq<Entry>, primary: nat, i: nat, j: nat)
    requires Tree(schema, tree) && primary < |schema.subkeys| && schema.SubkeyType(primary) == TypeStr
    requires i < j < |Subkeys(tree, primary)|
    ensures Strcmp(Subkeys(tree, primary)[i], Subkeys(tree, primary)[j]) < 0
  {
    hide Find, Subkeys;
    var count := BlockExists(schema, tree, primary);
    var start := Find(schema, tree, Key(primary, StrSub([])), false);
    SubkeysOfBlock(schema, tree, primary, start, count);
    assert Compare(schema, tree[start + i].key, tree[start + j].key) < 0;
  }

  /** The loop of a caller that starts from NULL and goes on until NULL: it visits every
      subkey once, in ascending order. */
  method VisitSubkeys(schema: Schema, tree: seq<Entry>, primary: nat) returns (seen: seq<seq<byte>>)
    requires Tree(schema, tree) && primary < |schema.subkeys| && schema.SubkeyType(primary) == TypeStr
    ensures seen == Subkeys(tree, primary)
    ensures forall i, j | 0 <= i < j < |seen| :: Strcmp(seen[i], seen[j]) < 0
  {
    hide Tree, NextSubkey, Subkeys, Strcmp;
    ghost var all := Subkeys(tree, primary);
    seen := [];
    NextIsSubkey(schema, tree, primary, 0);
    var next := NextSubkey(schema, tree, primary, None);
    while next.Some?
      invariant |seen| <= |all| && seen == all[..|seen|]
      invariant next == if |seen| < |all| then Some(all[|seen|]) else None
      decreases |all| - |seen|
    {
      seen := seen + [next.value];
      NextIsSubkey(schema, tree, primary, |seen|);
      next := NextSubkey(schema, tree, primary, next);
    }
    forall i, j | 0 <= i < j < |seen|
      ensures Strcmp(seen[i], seen[j]) < 0
    {
      SubkeysAscend(schema, tree, primary, i, j);
    }
  }

  // ---------- The object ----------

  lemma ReadEntryTyped(schema: Schema, data: seq<byte>, p: nat)
    requires schema.Valid() && p <= |data|
    ensures match ReadEntry(schema, data, p) case Got(e, _) => schema.TypedEntry(e) case Stop(_) => true
  {
    hide Memchr, Be32At;
  }

  lemma PutAllMore(schema: Schema, tree: seq<Entry>, es: seq<Entry>, e: Entry)
    ensures PutAll(schema, tree, es + [e]) == Put(schema, PutAll(schema, tree, es), e)
    ensures PutAll(schema, tree, []) == tree
  {
  }

  /** Conf */
  class Conf {
    const schema: Schema
    var tree: seq<Entry>

    /** In every reachable state the entries are typed and in order, one for each key. */
    ghost predicate Valid()
      reads this
    {
      schema.Valid() && Tree(schema, tree)
    }

    constructor (schema: Schema)
      requires schema.Valid()
      ensures Valid() && this.schema == schema && tree == []
    {
      this.schema := schema;
      tree := [];
    }

    /** add234: an entry of the same key stays, and is returned. */
    method Add(e: Entry) returns (there: Option<Entry>)
      modifies this`tree
      ensures there.Some? <==> Has(schema, old(tree), e.key)
      ensures tree == if there.Some? then old(tree) else Put(schema, old(tree), e)
    {
      hide Compare;
      var p := Find(schema, tree, e.key, false);
      if p < |tree| && Compare(schema, tree[p].key, e.key) == 0 {
        there := Some(tree[p]);
      } else {
        tree := tree[..p] + [e] + tree[p..];
        there := None;
      }
    }

    /** find234 and del234. */
    method Delete(k: Key)
      modifies this`tree
      ensures tree == Without(schema, old(tree), k)
    {
      hide Compare;
      var p := Find(schema, tree, k, false);
      if p < |tree| && Compare(schema, tree[p].key, k) == 0 {
        tree := tree[..p] + tree[p + 1..];
      }
    }

    /** conf_insert: the last write wins. */
    method Insert(e: Entry)
      requires Valid() && schema.TypedEntry(e)
      modifies this`tree
      ensures Valid() && tree == Put(schema, old(tree), e)
      ensures Contents(tree) == Contents(old(tree))[e.key := e.value]
    {
      hide Contents, Put, Without, Tree;
      PutIsUpdate(schema, tree, e);
      var there := Add(e);
      if there.Some? {
        DeleteThenAdd(schema, tree, e);
        Delete(e.key);
        there := Add(e);
        assert there.None?;
      }
    }

    /** conf_del_str_str */
    method DelStrStr(primary: nat, secondary: seq<byte>)
      requires Valid() && schema.Typed(Key(primary, StrSub(secondary)))
      modifies this`tree
      ensures Valid() && Contents(tree) == Contents(old(tree)) - {Key(primary, StrSub(secondary))}
    {
      hide Contents, Without, Tree;
      WithoutIsRemoval(schema, tree, Key(primary, StrSub(secondary)));
      Delete(Key(primary, StrSub(secondary)));
    }

    /** conf_copy_into */
    method CopyInto(from: Conf)
      requires Valid() && from.Valid() && from != this && from.schema == schema
      modifies this`tree
      ensures Valid() && tree == from.tree
    {
      hide Put, Tree;
      while tree != [] {
        tree := tree[1..];
      }
      for i := 0 to |from.tree|
        invariant tree == from.tree[..i]
      {
        TreePrefix(schema, from.tree, i + 1);
        assert from.tree[..i] + [from.tree[i]] == from.tree[..i + 1];
        PutLast(schema, tree, from.tree[i]);
        NotThere(schema, tree, from.tree[i]);
        var _ := Add(from.tree[i]);
      }
      assert from.tree[..|from.tree|] == from.tree;
    }

    /** conf_serialised_size */
    method SerialisedSize() returns (size: nat)
      requires Valid()
      ensures size == |Serialised(tree)|
    {
      hide Tree, EntriesBytes, SubBytes, ValueBytes, Schema.TypedEntry;
      TypedTree(schema, tree);
      size := 0;
      NoEntries(tree);
      for i := 0 to |tree|
        invariant size == |EntriesBytes(tree[..i])|
      {
        var e := tree[i];
        assert schema.TypedEntry(e);
        var sub := SubSize(schema, e);
        var value := ValueSize(schema, e);
        size := size + 4 + sub + value;
        EntriesMore(tree, i);
      }
      assert tree[..|tree|] == tree;
      size := size + 4;
    }

    /** conf_serialise, into a buffer that the caller has measured. */
    method Serialise(data: array<byte>)
      requires Valid() && |Serialised(tree)| <= data.Length
      modifies data
      ensures Patched(old(data[..]), data[..], 0, Serialised(tree))
    {
      hide Tree, Patched, EntriesBytes, Be32, Schema.TypedEntry;
      TypedTree(schema, tree);
      ghost var before := data[..];
      var at := PutEntries(schema, data, tree);
      ghost var mid := data[..];
      at := PutBytes(data, at, Be32(TERMINATOR));
      PatchedTwice(before, mid, data[..], 0, EntriesBytes(tree), Be32(TERMINATOR));
    }

    /** conf_deserialise, into whatever is there already. */
    method Deserialise(data: seq<byte>) returns (used: nat)
      requires Valid()
      modifies this`tree
      ensures Valid() && used == ReadEntries(schema, data, 0).1
      ensures tree == PutAll(schema, old(tree), ReadEntries(schema, data, 0).0)
    {
      hide Tree, ReadEntry, Put, PutAll, Contents;
      ghost var es: seq<Entry> := [];
      ghost var all := ReadEntries(schema, data, 0);
      PutAllNone(schema, tree);
      assert [] + all.0 == all.0;
      used := 0;
      while |data| - used >= 4
        invariant Valid() && used <= |data| && tree == PutAll(schema, old(tree), es)
        invariant all == (es + ReadEntries(schema, data, used).0, ReadEntries(schema, data, used).1)
        decreases |data| - used
      {
        ReadEntryTyped(schema, data, used);
        var step := ReadEntry(schema, data, used);
        used := step.next;
        if step.Stop? {
          assert es + [] == es;
          return;
        }
        PutAllMore(schema, old(tree), es, step.entry);
        assert es + ([step.entry] + ReadEntries(schema, data, used).0)
            == es + [step.entry] + ReadEntries(schema, data, used).0;
        es := es + [step.entry];
        Insert(step.entry);
      }
      NoMore(schema, data, used);
      assert es + [] == es;
    }
  }

  lemma TypedTree(schema: Schema, tree: seq<Entry>)
    requires Tree(schema, tree)
    ensures forall i | 0 <= i < |tree| :: schema.TypedEntry(tree[i])
  {
  }

  lemma NoMore(schema: Schema, data: seq<byte>, p: nat)
    requires |data| - 4 < p <= |data|
    ensures ReadEntries(schema, data, p) == ([], p)
  {
  }

  lemma PutAllNone(schema: Schema, tree: seq<Entry>)
    ensures PutAll(schema, tree, []) == tree
  {
  }

  lemma NoEntries(es: seq<Entry>)
    ensures EntriesBytes(es[..0]) == []
  {
  }

  lemma EntriesMore(es: seq<Entry>, i: nat)
    requires i < |es|
    ensures EntriesBytes(es[..i + 1]) == EntriesBytes(es[..i]) + EntryBytes(es[i])
  {
    assert es[..i + 1][..i] == es[..i];
  }

  lemma {:induction false} EntriesPrefix(es: seq<Entry>, i: nat)
    requires i <= |es|
    ensures |EntriesBytes(es[..i])| <= |EntriesBytes(es)|
    decreases |es|
  {
    hide EntryBytes;
    if i < |es| {
      var init := es[..|es| - 1];
      EntriesPrefix(init, i);
      assert init[..i] == es[..i];
    } else {
      assert es[..i] == es;
    }
  }

  // ---------- One entry ----------

  method SubSize(schema: Schema, e: Entry) returns (n: nat)
    requires schema.TypedEntry(e)
    ensures n == |SubBytes(e.key.sub)|
  {
    hide IsStr, IsInt, Int32;
    match schema.SubkeyType(e.key.primary)
    case TypeInt => n := 4;
    case TypeStr => n := 1 + |e.key.sub.s|;
    case _ => n := 0;
  }

  method ValueSize(schema: Schema, e: Entry) returns (n: nat)
    requires schema.TypedEntry(e)
    ensures n == |ValueBytes(e.value)|
  {
    hide IsStr, IsInt, Int32;
    match schema.ValueType(e.key.primary)
    case TypeInt => n := 4;
    case TypeStr => n := 1 + |e.value.s|;
    case TypeFilename => n := |e.value.path| + 1;
    case TypeFont => n := |e.value.name| + 1 + 12;
  }

  method PutSub(schema: Schema, data: array<byte>, at: nat, e: Entry) returns (next: nat)
    requires schema.TypedEntry(e) && at + |SubBytes(e.key.sub)| <= data.Length
    modifies data
    ensures next == at + |SubBytes(e.key.sub)| && Patched(old(data[..]), data[..], at, SubBytes(e.key.sub))
  {
    hide IsStr, IsInt, Int32, Patched;
    next := at;
    PatchedNothing(data[..], at);
    match schema.SubkeyType(e.key.primary)
    case TypeInt => next := PutBytes(data, next, Int32(e.key.sub.i));
    case TypeStr => next := PutStr(data, next, e.key.sub.s);
    case _ =>
  }

  /** A string and its zero, as strcpy copies them. */
  method PutStr(data: array<byte>, at: nat, s: seq<byte>) returns (next: nat)
    requires at + |s| + 1 <= data.Length
    modifies data
    ensures next == at + |s| + 1 && Patched(old(data[..]), data[..], at, s + [0])
  {
    hide Patched;
    ghost var before := data[..];
    next := PutBytes(data, at, s);
    ghost var mid := data[..];
    next := PutBytes(data, next, [0]);
    PatchedTwice(before, mid, data[..], at, s, [0]);
  }

  /** fontspec_serialise */
  method PutFont(data: array<byte>, at: nat, v: Value) returns (next: nat)
    requires v.FontValue? && at + |ValueBytes(v)| <= data.Length
    modifies data
    ensures next == at + |ValueBytes(v)| && Patched(old(data[..]), data[..], at, ValueBytes(v))
  {
    hide Patched, Int32;
    ghost var before := data[..];
    next := PutStr(data, at, v.name);
    ghost var s0 := data[..];
    ghost var p := next;
    next := PutBytes(data, next, Int32(v.bold));
    ghost var s1 := data[..];
    next := PutBytes(data, next, Int32(v.height));
    PatchedTwice(s0, s1, data[..], p, Int32(v.bold), Int32(v.height));
    ghost var s2 := data[..];
    next := PutBytes(data, next, Int32(v.charset));
    PatchedTwice(s0, s2, data[..], p, Int32(v.bold) + Int32(v.height), Int32(v.charset));
    PatchedTwice(before, s0, data[..], at, v.name + [0], Int32(v.bold) + Int32(v.height) + Int32(v.charset));
  }

  method PutValue(schema: Schema, data: array<byte>, at: nat, e: Entry) returns (next: nat)
    requires schema.TypedEntry(e) && at + |ValueBytes(e.value)| <= data.Length
    modifies data
    ensures next == at + |ValueBytes(e.value)| && Patched(old(data[..]), data[..], at, ValueBytes(e.value))
  {
    hide IsStr, IsInt, Int32, Patched;
    match schema.ValueType(e.key.primary)
    case TypeInt => next := PutBytes(data, at, Int32(e.value.i));
    case TypeStr => next := PutStr(data, at, e.value.s);
    case TypeFilename => next := PutStr(data, at, e.value.path);
    case TypeFont => next := PutFont(data, at, e.value);
  }

  /** One turn of the loop of conf_serialise. */
  method PutEntry(schema: Schema, data: array<byte>, at: nat, e: Entry) returns (next: nat)
    requires schema.TypedEntry(e) && at + |EntryBytes(e)| <= data.Length
    modifies data
    ensures next == at + |EntryBytes(e)| && Patched(old(data[..]), data[..], at, EntryBytes(e))
  {
    hide SubBytes, ValueBytes, Be32, Patched;
    ghost var before := data[..];
    next := PutBytes(data, at, Be32(e.key.primary));
    ghost var s0 := data[..];
    next := PutSub(schema, data, next, e);
    ghost var s1 := data[..];
    next := PutValue(schema, data, next, e);
    PatchedTwice(s0, s1, data[..], at + 4, SubBytes(e.key.sub), ValueBytes(e.value));
    PatchedTwice(before, s0, data[..], at, Be32(e.key.primary), SubBytes(e.key.sub) + ValueBytes(e.value));
  }

  /** The loop of conf_serialise. */
  method PutEntries(schema: Schema, data: array<byte>, es: seq<Entry>) returns (at: nat)
    requires schema.TypedEntries(es) && |EntriesBytes(es)| <= data.Length
    modifies data
    ensures at == |EntriesBytes(es)| && Patched(old(data[..]), data[..], 0, EntriesBytes(es))
  {
    hide Patched, EntryBytes, EntriesBytes, Schema.TypedEntry;
    ghost var before := data[..];
    at := 0;
    PatchedNothing(before, 0);
    NoEntries(es);
    for i := 0 to |es|
      invariant at == |EntriesBytes(es[..i])| && Patched(before, data[..], 0, EntriesBytes(es[..i]))
    {
      EntriesPrefix(es, i + 1);
      EntriesMore(es, i);
      ghost var mid := data[..];
      at := PutEntry(schema, data, at, es[i]);
      PatchedTwice(before, mid, data[..], 0, EntriesBytes(es[..i]), EntryBytes(es[i]));
    }
    assert es[..|es|] == es;
  }

  // ---------- Round trips ----------

  /** Any truncation of a serialised configuration, read into an empty one, gives the
      longest run of whole entries. */
  lemma Restored(schema: Schema, tree: seq<Entry>, n: nat)
    requires schema.Valid() && Tree(schema, tree) && n <= |Serialised(tree)|
    ensures PutAll(schema, [], ReadEntries(schema, Serialised(tree)[..n], 0).0) == tree[..Whole(tree, n)]
  {
    hide PutAll, ReadEntries, Whole, Serialised;
    TypedTree(schema, tree);
    Truncated(schema, [], tree, n);
    assert [] + Serialised(tree)[..n] == Serialised(tree)[..n];
    TreePrefix(schema, tree, Whole(tree, n));
    PutAllInOrder(schema, tree[..Whole(tree, n)]);
  }

  /** Saving a configuration and loading it again. */
  method SaveAndLoad(conf: Conf) returns (copy: Conf, saved: array<byte>, used: nat)
    requires conf.Valid()
    ensures fresh(copy) && fresh(saved) && copy.Valid() && copy.tree == conf.tree && saved[..] == Serialised(conf.tree)
    ensures used == |Serialised(conf.tree)|
  {
    hide Tree, Serialised, ReadEntries, PutAll, Patched;
    var size := conf.SerialisedSize();
    saved := new byte[size];
    ghost var blank := saved[..];
    conf.Serialise(saved);
    PatchedWhole(blank, saved[..], Serialised(conf.tree));
    copy := new Conf(conf.schema);
    used := copy.Deserialise(saved[..]);
    AllRestored(conf.schema, conf.tree);
  }

  lemma PatchedWhole(before: seq<byte>, after: seq<byte>, x: seq<byte>)
    requires Patched(before, after, 0, x) && |x| == |before|
    ensures after == x
  {
  }

  lemma AllRestored(schema: Schema, tree: seq<Entry>)
    requires schema.Valid() && Tree(schema, tree)
    ensures ReadEntries(schema, Serialised(tree), 0) == (tree, |Serialised(tree)|)
    ensures PutAll(schema, [], tree) == tree
  {
    hide PutAll, ReadEntries, Serialised;
    TypedTree(schema, tree);
    assert [] + Serialised(tree) == Serialised(tree);
    ReadSerialised(schema, [], tree);
    PutAllInOrder(schema, tree);
  }

  lemma NotThere(schema: Schema, tree: seq<Entry>, e: Entry)
    requires Tree(schema, tree + [e])
    ensures !Has(schema, tree, e.key)
  {
    hide Compare;
    forall i | 0 <= i < |tree|
      ensures Compare(schema, tree[i].key, e.key) < 0
    {
      assert (tree + [e])[i] == tree[i] && (tree + [e])[|tree|] == e;
    }
  }

  /** Taking the old entry away and adding the new one replaces it. */
  lemma DeleteThenAdd(schema: Schema, tree: seq<Entry>, e: Entry)
    requires Tree(schema, tree) && schema.TypedEntry(e) && Has(schema, tree, e.key)
    ensures var less := Without(schema, tree, e.key);
            !Has(schema, less, e.key) && Put(schema, less, e) == Put(schema, tree, e)
  {
    hide Compare, Find;
    var less := Without(schema, tree, e.key);
    var p, q := Find(schema, tree, e.key, false), Find(schema, less, e.key, false);
    FindSplits(schema, tree, e.key);
    WithoutIsTree(schema, tree, e.key);
    FindSplits(schema, less, e.key);
    if p < q {
      CompareIsTotalOrder(schema, less[p].key, e.key, e.key);
    }
    assert q == p;
    if q < |less| {
      assert less[q] == tree[p + 1];
      CompareIsTotalOrder(schema, less[q].key, e.key, e.key);
    }
  }
}
