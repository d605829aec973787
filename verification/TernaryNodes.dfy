/** The nodes of utils/ubb/ext/tst_impl.hpp, changed in place. */
module TernaryNodes {
  import opened Wrappers
  import opened TernaryTree

  class TstNode<T> {
    const id: char
    var data: Option<T>
    var lt: TstNode?<T>
    var eq: TstNode?<T>
    var gt: TstNode?<T>
    /** The objects of the subtree, and the value it stands for. */
    ghost var repr: set<TstNode<T>>
    ghost var tree: Tree<T>

    ghost predicate Valid()
      reads this, repr
      decreases repr
    {
      && this in repr
      && (lt != null ==> lt in repr && lt.repr <= repr && this !in lt.repr && lt.Valid())
      && (eq != null ==> eq in repr && eq.repr <= repr && this !in eq.repr && eq.Valid())
      && (gt != null ==> gt in repr && gt.repr <= repr && this !in gt.repr && gt.Valid())
      && ReprOf(lt) !! ReprOf(eq) && ReprOf(lt) !! ReprOf(gt) && ReprOf(eq) !! ReprOf(gt)
      && tree == Node(id, data, TreeOf(lt), TreeOf(eq), TreeOf(gt))
    }

    constructor (c: char)
      ensures Valid() && fresh(repr) && tree == Node(c, None, Empty, Empty, Empty) && id == c && repr == {this}
    {
      id, data, lt, eq, gt := c, None, null, null, null;
      repr, tree := {this}, Node(c, None, Empty, Empty, Empty);
    }

    /** A pointer that may stand as a child. */
    ghost predicate Fits(e: TstNode?<T>)
      reads this, e, ReprOf(e)
    {
      e != null ==> e.Valid() && this !in e.repr && e in e.repr
    }

    method SetLt(e: TstNode?<T>)
      requires this in repr && Fits(e) && Fits(eq) && Fits(gt)
      requires ReprOf(e) !! ReprOf(eq) && ReprOf(e) !! ReprOf(gt) && ReprOf(eq) !! ReprOf(gt)
      requires ReprOf(eq) <= repr && ReprOf(gt) <= repr
      modifies this
      ensures Valid() && lt == e && repr == old(repr) + old(ReprOf(e)) && unchanged(`data) && unchanged(`eq) && unchanged(`gt)
      ensures tree == Node(id, data, old(TreeOf(e)), old(TreeOf(eq)), old(TreeOf(gt)))
    {
      lt, repr := e, repr + ReprOf(e);
      tree := Node(id, data, TreeOf(lt), TreeOf(eq), TreeOf(gt));
    }

    method SetEq(e: TstNode?<T>)
      requires this in repr && Fits(e) && Fits(lt) && Fits(gt)
      requires ReprOf(e) !! ReprOf(lt) && ReprOf(e) !! ReprOf(gt) && ReprOf(lt) !! ReprOf(gt)
      requires ReprOf(lt) <= repr && ReprOf(gt) <= repr
      modifies this
      ensures Valid() && eq == e && repr == old(repr) + old(ReprOf(e)) && unchanged(`data) && unchanged(`lt) && unchanged(`gt)
      ensures tree == Node(id, data, old(TreeOf(lt)), old(TreeOf(e)), old(TreeOf(gt)))
    {
      eq, repr := e, repr + ReprOf(e);
      tree := Node(id, data, TreeOf(lt), TreeOf(eq), TreeOf(gt));
    }

    method SetGt(e: TstNode?<T>)
      requires this in repr && Fits(e) && Fits(lt) && Fits(eq)
      requires ReprOf(e) !! ReprOf(lt) && ReprOf(e) !! ReprOf(eq) && ReprOf(lt) !! ReprOf(eq)
      requires ReprOf(lt) <= repr && ReprOf(eq) <= repr
      modifies this
      ensures Valid() && gt == e && repr == old(repr) + old(ReprOf(e)) && unchanged(`data) && unchanged(`lt) && unchanged(`eq)
      ensures tree == Node(id, data, old(TreeOf(lt)), old(TreeOf(eq)), old(TreeOf(e)))
    {
      gt, repr := e, repr + ReprOf(e);
      tree := Node(id, data, TreeOf(lt), TreeOf(eq), TreeOf(gt));
    }

    method SetData(d: Option<T>)
      requires Valid()
      modifies this
      ensures Valid() && repr == old(repr) && tree == old(tree).(data := d)
    {
      data := d;
      tree := Node(id, data, TreeOf(lt), TreeOf(eq), TreeOf(gt));
    }
  }

  ghost function ReprOf<T>(p: TstNode?<T>): set<TstNode<T>>
    reads p
  {
    if p == null then {} else p.repr
  }

  ghost function TreeOf<T>(p: TstNode?<T>): Tree<T>
    reads p
  {
    if p == null then Empty else p.tree
  }

  ghost function Stored<T>(t: Tree<T>, s: string, v: T): T
    requires s != ""
  {
    if Get(t, s).Some? then Get(t, s).value else v
  }

  /** Adds a key below a pointer, which is set when it was null; gives the value stored there afterwards. */
  method Add<T>(p: TstNode?<T>, s: string, v: T) returns (r: TstNode<T>, d: T)
    requires s != "" && (p != null ==> p.Valid())
    modifies ReprOf(p)
    ensures r.Valid() && (p != null ==> r == p) && fresh(r.repr - old(ReprOf(p)))
    ensures r.tree == Put(old(TreeOf(p)), s, v) && d == Stored(old(TreeOf(p)), s, v)
    decreases |s|, ReprOf(p), 1
  {
    if p == null {
      r := new TstNode(s[0]);
      d := AddNew(r, s, v);
    } else if s[0] == p.id {
      r := p;
      if |s| == 1 {
        if r.data.None? {
          r.SetData(Some(v));
        }
        d := r.data.value;
      } else {
        d := AddEq(r, s, v);
      }
    } else if s[0] < p.id {
      r := p;
      d := AddLt(r, s, v);
    } else {
      r := p;
      d := AddGt(r, s, v);
    }
  }

  /** The rest of a key below a node just made for its first character. */
  method AddNew<T>(r: TstNode<T>, s: string, v: T) returns (d: T)
    requires s != "" && r.Valid() && r.repr == {r} && r.tree == Node(s[0], None, Empty, Empty, Empty)
    modifies r
    ensures r.Valid() && fresh(r.repr - {r})
    ensures r.tree == Put(Empty, s, v) && d == Stored(Empty, s, v)
    decreases |s|, ReprOf<T>(null), 0
  {
    d := v;
    if |s| == 1 {
      r.SetData(Some(v));
    } else {
      var e;
      e, d := Add(null, s[1..], v);
      r.SetEq(e);
    }
  }

  lemma PutEq<T>(t: Tree<T>, s: string, v: T)
    requires s != "" && t.Node? && s[0] == t.id && |s| > 1
    ensures Put(t, s, v) == t.(eq := Put(t.eq, s[1..], v)) && Stored(t, s, v) == Stored(t.eq, s[1..], v)
  {
  }

  method AddEq<T>(r: TstNode<T>, s: string, v: T) returns (d: T)
    requires s != "" && s[0] == r.id && |s| > 1 && r.Valid()
    modifies r.repr
    ensures r.Valid() && fresh(r.repr - old(r.repr))
    ensures r.tree == Put(old(r.tree), s, v) && d == Stored(old(r.tree), s, v)
    decreases |s|, r.repr, 0
  {
    hide Put, Stored, Get;
    PutEq(r.tree, s, v);
    var e;
    e, d := Add(r.eq, s[1..], v);
    r.SetEq(e);
  }

  lemma PutLt<T>(t: Tree<T>, s: string, v: T)
    requires s != "" && t.Node? && s[0] < t.id
    ensures Put(t, s, v) == t.(lt := Put(t.lt, s, v)) && Stored(t, s, v) == Stored(t.lt, s, v)
  {
  }

  method AddLt<T>(r: TstNode<T>, s: string, v: T) returns (d: T)
    requires s != "" && s[0] < r.id && r.Valid()
    modifies r.repr
    ensures r.Valid() && fresh(r.repr - old(r.repr))
    ensures r.tree == Put(old(r.tree), s, v) && d == Stored(old(r.tree), s, v)
    decreases |s|, r.repr, 0
  {
    hide Put, Stored, Get;
    PutLt(r.tree, s, v);
    var e;
    e, d := Add(r.lt, s, v);
    r.SetLt(e);
  }

  lemma PutGt<T>(t: Tree<T>, s: string, v: T)
    requires s != "" && t.Node? && s[0] > t.id
    ensures Put(t, s, v) == t.(gt := Put(t.gt, s, v)) && Stored(t, s, v) == Stored(t.gt, s, v)
  {
  }

  method AddGt<T>(r: TstNode<T>, s: string, v: T) returns (d: T)
    requires s != "" && s[0] > r.id && r.Valid()
    modifies r.repr
    ensures r.Valid() && fresh(r.repr - old(r.repr))
    ensures r.tree == Put(old(r.tree), s, v) && d == Stored(old(r.tree), s, v)
    decreases |s|, r.repr, 0
  {
    hide Put, Stored, Get;
    PutGt(r.tree, s, v);
    var e;
    e, d := Add(r.gt, s, v);
    r.SetGt(e);
  }

  /** Drops a node without value and children. */
  method Prune<T>(r: TstNode<T>) returns (p: TstNode?<T>)
    requires r.Valid()
    ensures p == null || (p == r && r.Valid())
    ensures TreeOf(p) == Pruned(r.tree)
  {
    if r.data.None? && r.lt == null && r.eq == null && r.gt == null {
      return null;
    }
    return r;
  }

  /** Takes the value of a key out and drops the nodes this leaves useless. */
  method Remove<T>(p: TstNode?<T>, s: string) returns (q: TstNode?<T>)
    requires p != null ==> p.Valid()
    modifies ReprOf(p)
    ensures q != null ==> q == p && q.Valid() && q.repr <= old(ReprOf(p))
    ensures TreeOf(q) == Del(old(TreeOf(p)), s)
    decreases |s|, ReprOf(p), 1
  {
    if p == null || s == "" {
      return p;
    }
    if s[0] == p.id {
      if |s| == 1 {
        p.SetData(None);
      } else {
        RemoveEq(p, s);
      }
    } else if s[0] < p.id {
      RemoveLt(p, s);
    } else {
      RemoveGt(p, s);
    }
    q := Prune(p);
  }

  method RemoveEq<T>(r: TstNode<T>, s: string)
    requires s != "" && s[0] == r.id && |s| > 1 && r.Valid()
    modifies r.repr
    ensures r.Valid() && r.repr <= old(r.repr)
    ensures Pruned(r.tree) == Del(old(r.tree), s)
    decreases |s|, r.repr, 0
  {
    ghost var t := r.tree;
    assert Del(t, s) == Pruned(t.(eq := Del(t.eq, s[1..])));
    hide Del, Pruned;
    var e := Remove(r.eq, s[1..]);
    r.SetEq(e);
  }

  method RemoveLt<T>(r: TstNode<T>, s: string)
    requires s != "" && s[0] < r.id && r.Valid()
    modifies r.repr
    ensures r.Valid() && r.repr <= old(r.repr)
    ensures Pruned(r.tree) == Del(old(r.tree), s)
    decreases |s|, r.repr, 0
  {
    ghost var t := r.tree;
    assert Del(t, s) == Pruned(t.(lt := Del(t.lt, s)));
    hide Del, Pruned;
    var e := Remove(r.lt, s);
    r.SetLt(e);
  }

  method RemoveGt<T>(r: TstNode<T>, s: string)
    requires s != "" && s[0] > r.id && r.Valid()
    modifies r.repr
    ensures r.Valid() && r.repr <= old(r.repr)
    ensures Pruned(r.tree) == Del(old(r.tree), s)
    decreases |s|, r.repr, 0
  {
    ghost var t := r.tree;
    assert Del(t, s) == Pruned(t.(gt := Del(t.gt, s)));
    hide Del, Pruned;
    var e := Remove(r.gt, s);
    r.SetGt(e);
  }

  /** The value of the longest stored prefix of the filtered input, and the place one past it. */
  method Find<T>(start: TstNode?<T>, s: string, filter: char -> char) returns (found: Option<T>, next: nat)
    requires start != null ==> start.Valid()
    ensures var f := Filtered(s, filter); found.Some? ==> LongestStored(TreeOf(start), f, next) && Get(TreeOf(start), f[..next]) == found
    ensures var f := Filtered(s, filter);
      found.None? ==> next == 0 && forall m {:trigger f[..m]} :: 0 < m <= |f| ==> Get(TreeOf(start), f[..m]).None?
  {
    ghost var t, f := TreeOf(start), Filtered(s, filter);
    found, next := None, 0;
    WalkStarts(t, f);
    hide Walked, LongestStored, Get, Filtered;
    var p, i := start, 0;
    while p != null && i < |s|
      invariant 0 <= i <= |s| && (p != null ==> p.Valid()) && Walked(t, f, TreeOf(p), i, found, next) && (found.None? ==> next == 0)
      decreases |s| - i, TreeOf(p)
    {
      var c := filter(s[i]);
      FilteredAt(s, filter, i);
      if c == p.id {
        WalkOn(t, f, p.tree, i, found, next);
        if p.data.Some? {
          found, next := p.data, i + 1;
        }
        p := p.eq;
        i := i + 1;
      } else {
        WalkSide(t, f, p.tree, i, found, next);
        p := if c < p.id then p.lt else p.gt;
      }
    }
    WalkEnds(t, f, TreeOf(p), i, found, next);
  }

  lemma FilteredAt(s: string, filter: char -> char, i: nat)
    requires i < |s|
    ensures Filtered(s, filter)[i] == filter(s[i])
  {
  }

  function Filtered(s: string, filter: char -> char): (f: string)
    ensures |f| == |s|
  {
    seq(|s|, i requires 0 <= i < |s| => filter(s[i]))
  }

  /** The pairs in the order the walk calls its function. */
  method ForEach<T>(p: TstNode?<T>, prefix: string) returns (calls: seq<(string, T)>)
    requires p != null ==> p.Valid()
    ensures calls == Pairs(TreeOf(p), prefix)
    decreases ReprOf(p)
  {
    if p == null {
      return [];
    }
    calls := ForEach(p.lt, prefix);
    var s := prefix + [p.id];
    var more := ForEach(p.eq, s);
    calls := calls + more;
    if p.data.Some? {
      calls := calls + [(s, p.data.value)];
    }
    more := ForEach(p.gt, prefix);
    calls := calls + more;
  }
}
