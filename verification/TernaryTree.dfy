/** The ternary search tree of utils/ubb/ext/tst_impl.hpp as a value, and the map it stands for. */
module TernaryTree {
  import opened Wrappers

  datatype Tree<T> = Empty | Node(id: char, data: Option<T>, lt: Tree<T>, eq: Tree<T>, gt: Tree<T>)

  /** What is stored under a key: less to the left, greater to the right, equal one character on. */
  function Get<T>(t: Tree<T>, s: string): Option<T>
    requires s != ""
    decreases t
  {
    match t
    case Empty => None
    case Node(id, data, lt, eq, gt) =>
      if s[0] == id then (if |s| == 1 then data else Get(eq, s[1..]))
      else if s[0] < id then Get(lt, s) else Get(gt, s)
  }

  /** Adding a key: missing nodes are created, a value already there stays. */
  function Put<T>(t: Tree<T>, s: string, v: T): (u: Tree<T>)
    requires s != ""
    ensures u.Node?
    decreases |s|, t
  {
    match t
    case Empty => Node(s[0], if |s| == 1 then Some(v) else None, Empty, if |s| == 1 then Empty else Put(Empty, s[1..], v), Empty)
    case Node(id, data, lt, eq, gt) =>
      if s[0] == id then
        if |s| == 1 then t.(data := if data.None? then Some(v) else data) else t.(eq := Put(eq, s[1..], v))
      else if s[0] < id then t.(lt := Put(lt, s, v)) else t.(gt := Put(gt, s, v))
  }

  /** A node without value and children is dropped. */
  function Pruned<T>(t: Tree<T>): Tree<T> {
    if t.Node? && t.data.None? && t.lt.Empty? && t.eq.Empty? && t.gt.Empty? then Empty else t
  }

  function Del<T>(t: Tree<T>, s: string): Tree<T>
    decreases |s|, t
  {
    if t.Empty? || s == "" then t
    else
      Pruned(
        if s[0] == t.id then
          if |s| == 1 then t.(data := None) else t.(eq := Del(t.eq, s[1..]))
        else if s[0] < t.id then t.(lt := Del(t.lt, s)) else t.(gt := Del(t.gt, s)))
  }

  /** Adding stores the value under its key unless there is one, and changes no other key. */
  lemma {:induction false} PutGet<T>(t: Tree<T>, s: string, v: T, k: string)
    requires s != "" && k != ""
    ensures Get(Put(t, s, v), k) == if k == s then Some(if Get(t, s).Some? then Get(t, s).value else v) else Get(t, k)
    decreases |s|, t
  {
    match t {
      case Empty =>
        if |s| > 1 && k[0] == s[0] && |k| > 1 {
          PutGet<T>(Empty, s[1..], v, k[1..]);
          SameTail(s, k);
        }
        assert |s| == 1 && |k| == 1 && k[0] == s[0] ==> k == s;
      case Node(id, data, lt, eq, gt) =>
        if s[0] == id {
          if |s| > 1 && k[0] == id && |k| > 1 {
            PutGet(eq, s[1..], v, k[1..]);
            SameTail(s, k);
          }
          assert |s| == 1 && |k| == 1 && k[0] == s[0] ==> k == s;
        } else if s[0] < id {
          if k[0] < id { PutGet(lt, s, v, k); }
        } else {
          if k[0] > id { PutGet(gt, s, v, k); }
        }
    }
  }

  lemma SameTail(s: string, k: string)
    requires s != "" && k != "" && s[0] == k[0]
    ensures s == k <==> s[1..] == k[1..]
  {
    assert s == [s[0]] + s[1..] && k == [k[0]] + k[1..];
  }

  lemma PrunedGet<T>(t: Tree<T>, k: string)
    requires k != ""
    ensures Get(Pruned(t), k) == Get(t, k)
  {
  }

  /** Removing takes out its key and no other. */
  lemma {:induction false} DelGet<T>(t: Tree<T>, s: string, k: string)
    requires s != "" && k != ""
    ensures Get(Del(t, s), k) == if k == s then None else Get(t, k)
    decreases |s|, t
  {
    if t.Node? {
      var u := if s[0] == t.id then
          if |s| == 1 then t.(data := None) else t.(eq := Del(t.eq, s[1..]))
        else if s[0] < t.id then t.(lt := Del(t.lt, s)) else t.(gt := Del(t.gt, s));
      PrunedGet(u, k);
      if s[0] == t.id {
        if |s| > 1 && k[0] == s[0] && |k| > 1 {
          DelGet(t.eq, s[1..], k[1..]);
          SameTail(s, k);
        }
        assert |s| == 1 && |k| == 1 && k[0] == s[0] ==> k == s;
      } else if s[0] < t.id {
        if k[0] < t.id { DelGet(t.lt, s, k); }
      } else {
        if k[0] > t.id { DelGet(t.gt, s, k); }
      }
    }
  }

  // ---------------------------------------------------------------- order, and the walk over all pairs

  ghost predicate Between(t: Tree, lo: int, hi: int) {
    t.Node? ==> lo < t.id as int < hi && Between(t.lt, lo, t.id as int) && Between(t.gt, t.id as int, hi) && Ordered(t.eq)
  }

  /** Less to the left, greater to the right, at every level. */
  ghost predicate Ordered(t: Tree) { Between(t, -1, 0x11_0000) }

  lemma {:induction false} PutBetween<T>(t: Tree<T>, s: string, v: T, lo: int, hi: int)
    requires s != "" && Between(t, lo, hi) && lo < s[0] as int < hi
    ensures Between(Put(t, s, v), lo, hi)
    decreases |s|, t
  {
    match t {
      case Empty => if |s| > 1 { PutBetween<T>(Empty, s[1..], v, -1, 0x11_0000); }
      case Node(id, data, lt, eq, gt) =>
        if s[0] == id {
          if |s| > 1 { PutBetween(eq, s[1..], v, -1, 0x11_0000); }
        } else if s[0] < id {
          PutBetween(lt, s, v, lo, id as int);
        } else {
          PutBetween(gt, s, v, id as int, hi);
        }
    }
  }

  lemma {:induction false} DelBetween<T>(t: Tree<T>, s: string, lo: int, hi: int)
    requires Between(t, lo, hi)
    ensures Between(Del(t, s), lo, hi)
    decreases |s|, t
  {
    if t.Node? && s != "" {
      if s[0] == t.id {
        if |s| > 1 { DelBetween(t.eq, s[1..], -1, 0x11_0000); }
      } else if s[0] < t.id {
        DelBetween(t.lt, s, lo, t.id as int);
      } else {
        DelBetween(t.gt, s, t.id as int, hi);
      }
    }
  }

  /** The pairs in the order of the walk: smaller, longer, the key itself, greater. */
  function Pairs<T>(t: Tree<T>, prefix: string): seq<(string, T)> {
    match t
    case Empty => []
    case Node(id, data, lt, eq, gt) =>
      Pairs(lt, prefix) + Pairs(eq, prefix + [id]) + (if data.Some? then [(prefix + [id], data.value)] else []) + Pairs(gt, prefix)
  }

  /** The pairs of the subtree for the node's own character. */
  lemma KeyBelow(prefix: string, id: char, k: string)
    requires |k| > |prefix| + 1 && k[..|prefix| + 1] == prefix + [id]
    ensures k[|prefix|] == id && k[|prefix|..][1..] == k[|prefix| + 1..] && k[..|prefix|] == prefix && |k[|prefix|..]| > 1
  {
    assert k[|prefix|] == k[..|prefix| + 1][|prefix|] == id;
    assert k[..|prefix|] == k[..|prefix| + 1][..|prefix|] == prefix;
  }

  function Own<T>(prefix: string, id: char, data: Option<T>): seq<(string, T)> {
    if data.Some? then [(prefix + [id], data.value)] else []
  }

  /** Where the pair at place `i` comes from. */
  lemma PairsAt<T>(t: Tree<T>, prefix: string, i: nat)
    requires t.Node? && i < |Pairs(t, prefix)|
    ensures var a, b, c, d := Pairs(t.lt, prefix), Pairs(t.eq, prefix + [t.id]), Own(prefix, t.id, t.data), Pairs(t.gt, prefix);
      && |Pairs(t, prefix)| == |a| + |b| + |c| + |d|
      && (i < |a| ==> Pairs(t, prefix)[i] == a[i])
      && (|a| <= i < |a| + |b| ==> Pairs(t, prefix)[i] == b[i - |a|])
      && (|a| + |b| <= i < |a| + |b| + |c| ==> Pairs(t, prefix)[i] == c[i - |a| - |b|])
      && (|a| + |b| + |c| <= i ==> Pairs(t, prefix)[i] == d[i - |a| - |b| - |c|])
  {
  }

  /** Every pair the walk meets is stored under the prefix and more. */
  lemma {:induction false} PairsStored<T>(t: Tree<T>, prefix: string, lo: int, hi: int, i: nat)
    requires Between(t, lo, hi) && i < |Pairs(t, prefix)|
    ensures var (k, v) := Pairs(t, prefix)[i];
      |k| > |prefix| && k[..|prefix|] == prefix && Get(t, k[|prefix|..]) == Some(v) && lo < k[|prefix|] as int < hi
    decreases t
  {
    PairsAt(t, prefix, i);
    hide Pairs;
    var id := t.id;
    var a, b, c := Pairs(t.lt, prefix), Pairs(t.eq, prefix + [id]), Own(prefix, id, t.data);
    var k := Pairs(t, prefix)[i].0;
    if i < |a| {
      PairsStored(t.lt, prefix, lo, id as int, i);
    } else if i < |a| + |b| {
      PairsStored(t.eq, prefix + [id], -1, 0x11_0000, i - |a|);
      KeyBelow(prefix, id, k);
    } else if i < |a| + |b| + |c| {
      assert k == prefix + [id];
    } else {
      PairsStored(t.gt, prefix, id as int, hi, i - |a| - |b| - |c|);
    }
  }

  /** Every stored key is met. */
  lemma {:induction false} StoredIsMet<T>(t: Tree<T>, prefix: string, s: string)
    requires s != "" && Get(t, s).Some?
    ensures (prefix + s, Get(t, s).value) in Pairs(t, prefix)
    decreases t
  {
    var id := t.id;
    if s[0] == id {
      if |s| > 1 {
        StoredIsMet(t.eq, prefix + [id], s[1..]);
        assert prefix + [id] + s[1..] == prefix + s;
      } else {
        assert prefix + s == prefix + [id];
      }
    } else if s[0] < id {
      StoredIsMet(t.lt, prefix, s);
    } else {
      StoredIsMet(t.gt, prefix, s);
    }
  }

  /** The order of the walk: by the first character that differs, and a longer key before what it extends. */
  predicate Before(a: string, b: string) {
    if a == "" then false else if b == "" then true else if a[0] == b[0] then Before(a[1..], b[1..]) else a[0] < b[0]
  }

  lemma {:induction false} DiffersAt(a: string, b: string, n: nat)
    requires n < |a| && n < |b| && a[..n] == b[..n] && a[n] < b[n]
    ensures Before(a, b)
  {
    if n > 0 {
      assert a[0] == a[..n][0] == b[0] && a[1..][..n - 1] == a[..n][1..] && b[1..][..n - 1] == b[..n][1..];
      DiffersAt(a[1..], b[1..], n - 1);
    }
  }

  lemma {:induction false} Extends(a: string, b: string)
    requires |a| > |b| && a[..|b|] == b
    ensures Before(a, b)
  {
    if b != "" {
      assert a[0] == a[..|b|][0] == b[0] && a[1..][..|b| - 1] == a[..|b|][1..];
      Extends(a[1..], b[1..]);
    }
  }

  lemma {:induction false} NotBeforeItself(a: string)
    ensures !Before(a, a)
  {
    if a != "" { NotBeforeItself(a[1..]); }
  }

  lemma {:induction false} PairsRise<T>(t: Tree<T>, prefix: string, lo: int, hi: int, i: nat, j: nat)
    requires Between(t, lo, hi) && i < j < |Pairs(t, prefix)|
    ensures Before(Pairs(t, prefix)[i].0, Pairs(t, prefix)[j].0)
    decreases t
  {
    PairsAt(t, prefix, i);
    PairsAt(t, prefix, j);
    hide Pairs, Get, Before;
    var id := t.id;
    var a, b, c, d := Pairs(t.lt, prefix), Pairs(t.eq, prefix + [id]), Own(prefix, id, t.data), Pairs(t.gt, prefix);
    var n, m := |a|, |a| + |b| + |c|;
    if j < n {
      PairsRise(t.lt, prefix, lo, id as int, i, j);
    } else if i >= m {
      PairsRise(t.gt, prefix, id as int, hi, i - m, j - m);
    } else if n <= i && j < |a| + |b| {
      PairsRise(t.eq, prefix + [id], -1, 0x11_0000, i - n, j - n);
    } else {
      PairsApart(t, prefix, lo, hi, i, j);
    }
  }

  /** Pairs from different subtrees. */
  lemma PairsApart<T>(t: Tree<T>, prefix: string, lo: int, hi: int, i: nat, j: nat)
    requires Between(t, lo, hi) && t.Node? && i < j < |Pairs(t, prefix)|
    requires var a, b, c := |Pairs(t.lt, prefix)|, |Pairs(t.eq, prefix + [t.id])|, |Own(prefix, t.id, t.data)|;
      a <= j && i < a + b + c && !(a <= i && j < a + b)
    ensures Before(Pairs(t, prefix)[i].0, Pairs(t, prefix)[j].0)
  {
    PairsAt(t, prefix, i);
    PairsAt(t, prefix, j);
    hide Pairs, Get, Before;
    var id := t.id;
    var n, b, c := |Pairs(t.lt, prefix)|, |Pairs(t.eq, prefix + [id])|, |Own(prefix, id, t.data)|;
    var k, l := Pairs(t, prefix)[i].0, Pairs(t, prefix)[j].0;
    if i < n {
      PairsStored(t.lt, prefix, lo, id as int, i);
      NotBefore(t, prefix, lo, hi, j);
      DiffersAt(k, l, |prefix|);
    } else if j >= n + b + c {
      PairsStored(t.gt, prefix, id as int, hi, j - n - b - c);
      NotAfter(t, prefix, lo, hi, i);
      DiffersAt(k, l, |prefix|);
    } else {
      PairsStored(t.eq, prefix + [id], -1, 0x11_0000, i - n);
      Extends(k, l);
    }
  }

  lemma NotBefore<T>(t: Tree<T>, prefix: string, lo: int, hi: int, j: nat)
    requires Between(t, lo, hi) && t.Node? && |Pairs(t.lt, prefix)| <= j < |Pairs(t, prefix)|
    ensures var k := Pairs(t, prefix)[j].0; |k| > |prefix| && k[..|prefix|] == prefix && k[|prefix|] >= t.id
  {
    PairsAt(t, prefix, j);
    hide Pairs, Get;
    var a, b, c := Pairs(t.lt, prefix), Pairs(t.eq, prefix + [t.id]), Own(prefix, t.id, t.data);
    if j < |a| + |b| {
      PairsStored(t.eq, prefix + [t.id], -1, 0x11_0000, j - |a|);
      KeyBelow(prefix, t.id, Pairs(t, prefix)[j].0);
    } else if j >= |a| + |b| + |c| {
      PairsStored(t.gt, prefix, t.id as int, hi, j - |a| - |b| - |c|);
    }
  }

  lemma NotAfter<T>(t: Tree<T>, prefix: string, lo: int, hi: int, i: nat)
    requires Between(t, lo, hi) && t.Node? && |Pairs(t.lt, prefix)| <= i < |Pairs(t, prefix)| - |Pairs(t.gt, prefix)|
    ensures var k := Pairs(t, prefix)[i].0; |k| > |prefix| && k[..|prefix|] == prefix && k[|prefix|] == t.id
  {
    PairsAt(t, prefix, i);
    hide Pairs, Get;
    var a, b := Pairs(t.lt, prefix), Pairs(t.eq, prefix + [t.id]);
    if i < |a| + |b| {
      PairsStored(t.eq, prefix + [t.id], -1, 0x11_0000, i - |a|);
      KeyBelow(prefix, t.id, Pairs(t, prefix)[i].0);
    }
  }

  /** The walk meets exactly the stored pairs, each once and in the order of the keys. */
  lemma WalkIsMap<T>(t: Tree<T>, k: string, v: T)
    requires Ordered(t)
    ensures (k, v) in Pairs(t, "") <==> k != "" && Get(t, k) == Some(v)
    ensures forall i, j :: 0 <= i < j < |Pairs(t, "")| ==>
      Before(Pairs(t, "")[i].0, Pairs(t, "")[j].0) && Pairs(t, "")[i].0 != Pairs(t, "")[j].0
  {
    hide Pairs, Before;
    var ps := Pairs(t, "");
    if (k, v) in ps {
      var i :| 0 <= i < |ps| && ps[i] == (k, v);
      PairsStored(t, "", -1, 0x11_0000, i);
      assert k[0..] == k;
    }
    if k != "" && Get(t, k) == Some(v) {
      StoredIsMet(t, "", k);
      assert "" + k == k;
    }
    forall i, j | 0 <= i < j < |ps| ensures Before(ps[i].0, ps[j].0) && ps[i].0 != ps[j].0 {
      PairsRise(t, "", -1, 0x11_0000, i, j);
      NotBeforeItself(ps[i].0);
    }
  }

  // ---------------------------------------------------------------- the longest stored prefix

  /** Some prefix of s of length n is stored, and no longer one. */
  ghost predicate LongestStored<T>(t: Tree<T>, s: string, n: nat) {
    && 0 < n <= |s| && Get(t, s[..n]).Some?
    && forall m {:trigger s[..m]} :: n < m <= |s| ==> Get(t, s[..m]).None?
  }

  /** Prefixes longer than i are decided at the subtree p; those up to i are decided by what was found. */
  ghost predicate Walked<T>(t: Tree<T>, s: string, p: Tree<T>, i: nat, found: Option<T>, n: nat) {
    && i <= |s| && n <= i && (found.Some? <==> n > 0)
    && (n > 0 ==> Get(t, s[..n]) == found)
    && (forall m {:trigger s[..m]} :: n < m <= i ==> Get(t, s[..m]).None?)
    && (forall m {:trigger s[..m]} :: i < m <= |s| ==> Get(t, s[..m]) == Get(p, s[i..m]))
  }

  lemma WalkStarts<T>(t: Tree<T>, s: string)
    ensures Walked(t, s, t, 0, None, 0)
  {
    forall m | 0 < m <= |s| ensures Get(t, s[..m]) == Get(t, s[0..m]) { assert s[0..m] == s[..m]; }
  }

  lemma WalkSide<T>(t: Tree<T>, s: string, p: Tree<T>, i: nat, found: Option<T>, n: nat)
    requires Walked(t, s, p, i, found, n) && p.Node? && i < |s| && s[i] != p.id
    ensures Walked(t, s, if s[i] < p.id then p.lt else p.gt, i, found, n)
  {
    var q := if s[i] < p.id then p.lt else p.gt;
    forall m | i < m <= |s| ensures Get(t, s[..m]) == Get(q, s[i..m]) { assert s[i..m][0] == s[i]; }
  }

  lemma WalkOn<T>(t: Tree<T>, s: string, p: Tree<T>, i: nat, found: Option<T>, n: nat)
    requires Walked(t, s, p, i, found, n) && p.Node? && i < |s| && s[i] == p.id
    ensures if p.data.Some? then Walked(t, s, p.eq, i + 1, p.data, i + 1) else Walked(t, s, p.eq, i + 1, found, n)
  {
    assert s[i..i + 1] == [s[i]];
    assert Get(t, s[..i + 1]) == Get(p, s[i..i + 1]) == p.data;
    forall m | i + 1 < m <= |s| ensures Get(t, s[..m]) == Get(p.eq, s[i + 1..m]) { assert s[i..m][1..] == s[i + 1..m] && s[i..m][0] == s[i]; }
  }

  lemma WalkEnds<T>(t: Tree<T>, s: string, p: Tree<T>, i: nat, found: Option<T>, n: nat)
    requires Walked(t, s, p, i, found, n) && (p.Empty? || i == |s|)
    ensures found.Some? ==> LongestStored(t, s, n) && Get(t, s[..n]) == found
    ensures found.None? ==> forall m {:trigger s[..m]} :: 0 < m <= |s| ==> Get(t, s[..m]).None?
  {
  }

  // ---------------------------------------------------------------- any sequence of changes

  datatype Change<T> = Added(key: string, value: T) | Removed(key: string)

  /** The tree after the changes; the empty key changes nothing. */
  function Changed<T>(cs: seq<Change<T>>): Tree<T> {
    if cs == [] then Empty
    else
      var t, c := Changed(cs[..|cs| - 1]), cs[|cs| - 1];
      if c.key == "" then t else if c.Added? then Put(t, c.key, c.value) else Del(t, c.key)
  }

  /** The map after the changes: adding keeps a value that is there. */
  function ChangedMap<T>(cs: seq<Change<T>>): map<string, T> {
    if cs == [] then map[]
    else
      var m, c := ChangedMap(cs[..|cs| - 1]), cs[|cs| - 1];
      if c.key == "" then m
      else if c.Removed? then m - {c.key}
      else if c.key in m then m else m[c.key := c.value]
  }

  function Lookup<T>(m: map<string, T>, k: string): Option<T> { if k in m then Some(m[k]) else None }

  /** After any changes the tree is ordered and agrees with the map. */
  lemma {:induction false} TreeIsMap<T>(cs: seq<Change<T>>, k: string)
    requires k != ""
    ensures Ordered(Changed(cs)) && Get(Changed(cs), k) == Lookup(ChangedMap(cs), k)
  {
    if cs != [] {
      var before, c := cs[..|cs| - 1], cs[|cs| - 1];
      var t := Changed(before);
      TreeIsMap(before, k);
      if c.key != "" {
        TreeIsMap(before, c.key);
        if c.Added? {
          PutGet(t, c.key, c.value, k);
          PutBetween(t, c.key, c.value, -1, 0x11_0000);
        } else {
          DelGet(t, c.key, k);
          DelBetween(t, c.key, -1, 0x11_0000);
        }
      }
    }
  }
}
