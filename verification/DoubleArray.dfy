/** The packed trie of utils/nomenclate.cpp as a value, and what it means.

    A table is an array of (base, check) cells plus a pool of tail text.  A used cell `p` other than
    the root 0 is the child of cell `check` under the character `p - base(check) + off`.  A cell with a
    negative base is a leaf: it names the entry `-1 - base` of `refs`, which holds the rest of its key. */
module DoubleArray {

  type Str = seq<int>

  datatype Cell = Cell(base: int, check: int)

  datatype TailRef = TailRef(offset: nat, size: nat)

  datatype Table = Table(cells: seq<Cell>, tail: Str, refs: seq<TailRef>)

  /** Character `off + c` has code `c`; codes run from 1 to `cnt`, the terminator's among them. */
  datatype Alphabet = Alphabet(off: int, cnt: int, term: int) {
    ghost predicate Valid() { HasCode(term) }

    predicate HasCode(ch: int) { 1 <= ch - off <= cnt }

    ghost predicate Legal(s: Str) { forall ch :: ch in s ==> HasCode(ch) && ch != term }
  }

  const VACANT := Cell(0, -1)

  /** Cells past the end of the array read as vacant. */
  function At(t: seq<Cell>, p: int): Cell { if 0 <= p < |t| then t[p] else VACANT }

  predicate Used(t: seq<Cell>, p: int) { At(t, p).check >= 0 }

  predicate Leaf(t: seq<Cell>, p: int) { At(t, p).base < 0 }

  /** The position a parent's base assigns to a child character. */
  function Slot(a: Alphabet, t: seq<Cell>, q: int, ch: int): int { At(t, q).base + ch - a.off }

  /** What a table is believed to hold: the text spelled on the way to each used cell, a stored key that
      passes through the cell, the leaf of each stored key, the number each key was given, and back. */
  datatype Shape = Shape(path: map<int, Str>, owner: map<int, Str>, home: map<Str, int>, content: map<Str, int>, named: map<int, Str>)

  ghost predicate ChildOk(a: Alphabet, t: seq<Cell>, path: map<int, Str>, p: int)
    requires p in path
  {
    var q := At(t, p).check;
    var ch := p - At(t, q).base + a.off;
    q in path && !Leaf(t, q) && a.HasCode(ch) && path[p] == path[q] + [ch]
  }

  ghost predicate Tree(a: Alphabet, t: seq<Cell>, path: map<int, Str>) {
    && At(t, 0).check == 0 && !Leaf(t, 0)
    && (forall p {:trigger Used(t, p)} {:trigger p in path} :: p in path <==> Used(t, p))
    && 0 in path && path[0] == []
    && (forall p {:trigger ChildOk(a, t, path, p)} :: p in path && p != 0 ==> ChildOk(a, t, path, p))
  }

  /** Key `s` past its first `k` characters; the terminator counts as one character more. */
  function Rest(s: Str, k: nat): Str { if k <= |s| then s[k..] else [] }

  ghost predicate RefsOk(T: Table) {
    forall i :: 0 <= i < |T.refs| ==> T.refs[i].offset + T.refs[i].size <= |T.tail|
  }

  function Text(T: Table, i: int): Str {
    if 0 <= i < |T.refs| && T.refs[i].offset + T.refs[i].size <= |T.tail|
    then T.tail[T.refs[i].offset..T.refs[i].offset + T.refs[i].size] else []
  }

  ghost predicate CellOk(a: Alphabet, T: Table, sh: Shape, p: int)
    requires p in sh.path
  {
    && p in sh.owner && sh.owner[p] in sh.content
    && sh.path[p] <= sh.owner[p] + [a.term]
    && (Leaf(T.cells, p) ==>
          && sh.owner[p] in sh.home && sh.home[sh.owner[p]] == p
          && At(T.cells, p).base == -sh.content[sh.owner[p]]
          && Text(T, sh.content[sh.owner[p]] - 1) == Rest(sh.owner[p], |sh.path[p]|))
    && (!Leaf(T.cells, p) ==> |sh.path[p]| <= |sh.owner[p]|)
  }

  ghost predicate KeyOk(a: Alphabet, T: Table, sh: Shape, s: Str)
    requires s in sh.content
  {
    && a.Legal(s) && 1 <= sh.content[s] <= |T.refs|
    && sh.content[s] in sh.named && sh.named[sh.content[s]] == s
    && s in sh.home && sh.home[s] in sh.path && Leaf(T.cells, sh.home[s])
    && sh.home[s] in sh.owner && sh.owner[sh.home[s]] == s
  }

  ghost predicate WellFormed(a: Alphabet, T: Table, sh: Shape) {
    && a.Valid() && RefsOk(T)
    && Tree(a, T.cells, sh.path)
    && (forall p {:trigger CellOk(a, T, sh, p)} :: p in sh.path && p != 0 ==> CellOk(a, T, sh, p))
    && (forall s {:trigger KeyOk(a, T, sh, s)} :: s in sh.content ==> KeyOk(a, T, sh, s))
  }

  // ---------------------------------------------------------------- paths

  lemma {:induction false} PathInjective(a: Alphabet, t: seq<Cell>, path: map<int, Str>, p: int, q: int)
    requires Tree(a, t, path) && p in path && q in path && path[p] == path[q]
    ensures p == q
    decreases |path[p]|
  {
    assert p != 0 ==> ChildOk(a, t, path, p);
    assert q != 0 ==> ChildOk(a, t, path, q);
    if p != 0 && q != 0 {
      var p', q' := At(t, p).check, At(t, q).check;
      assert path[p'] == path[p][..|path[p]| - 1] == path[q'];
      PathInjective(a, t, path, p', q');
      assert path[p][|path[p]| - 1] == path[q][|path[q]| - 1];
    }
  }

  /** Every prefix of a path is the path of a used cell. */
  lemma {:induction false} Ancestor(a: Alphabet, t: seq<Cell>, path: map<int, Str>, p: int, k: nat) returns (q: int)
    requires Tree(a, t, path) && p in path && k <= |path[p]|
    ensures q in path && path[q] == path[p][..k]
    ensures k < |path[p]| ==> !Leaf(t, q)
    ensures k == |path[p]| ==> q == p
    decreases |path[p]|
  {
    if k == |path[p]| {
      q := p;
    } else {
      assert p != 0 && ChildOk(a, t, path, p);
      var p' := At(t, p).check;
      q := Ancestor(a, t, path, p', k);
    }
  }

  /** A leaf's path is a proper prefix of no other path. */
  lemma LeafEndsPath(a: Alphabet, t: seq<Cell>, path: map<int, Str>, p: int, q: int)
    requires Tree(a, t, path) && p in path && q in path && Leaf(t, p) && path[p] <= path[q]
    ensures p == q
  {
    var r := Ancestor(a, t, path, q, |path[p]|);
    PathInjective(a, t, path, p, r);
  }

  /** The slot computed from a parent is the only place where the child can be. */
  lemma ChildAtSlot(a: Alphabet, t: seq<Cell>, path: map<int, Str>, q: int, ch: int, p: int)
    requires Tree(a, t, path) && q in path && p in path && path[p] == path[q] + [ch]
    ensures p == Slot(a, t, q, ch) && At(t, p).check == q && a.HasCode(ch) && p != 0
  {
    assert p != 0 && ChildOk(a, t, path, p);
    var q' := At(t, p).check;
    assert path[q'] == path[p][..|path[p]| - 1] == path[q];
    PathInjective(a, t, path, q, q');
  }

  lemma SlotIsChild(a: Alphabet, t: seq<Cell>, path: map<int, Str>, q: int, ch: int)
    requires Tree(a, t, path) && q in path && !Leaf(t, q)
    requires At(t, Slot(a, t, q, ch)).check == q && Slot(a, t, q, ch) != 0
    ensures var p := Slot(a, t, q, ch); p in path && p != 0 && path[p] == path[q] + [ch]
  {
    assert Used(t, q);
    var p := Slot(a, t, q, ch);
    assert Used(t, p) && ChildOk(a, t, path, p);
  }

  /** What the invariant says of one used cell. */
  lemma CellFacts(a: Alphabet, T: Table, sh: Shape, x: int)
    requires WellFormed(a, T, sh) && x in sh.path && x != 0
    ensures Used(T.cells, x) && ChildOk(a, T.cells, sh.path, x) && CellOk(a, T, sh, x) && KeyOk(a, T, sh, sh.owner[x])
    ensures Used(T.cells, At(T.cells, x).check) && a.Valid() && RefsOk(T)
  {
    assert ChildOk(a, T.cells, sh.path, x) && CellOk(a, T, sh, x);
  }

  // ---------------------------------------------------------------- one step of a search

  /** A search for `s` stands at an internal cell `q` whose path is the first `k` characters of `s`
      plus terminator.  If the next slot is not a child of `q`, the key is not stored. */
  lemma NoChildNoKey(a: Alphabet, T: Table, sh: Shape, q: int, s: Str)
    requires WellFormed(a, T, sh) && q in sh.path && !Leaf(T.cells, q)
    requires sh.path[q] <= s
    requires At(T.cells, Slot(a, T.cells, q, (s + [a.term])[|sh.path[q]|])).check != q
    ensures s !in sh.content
  {
    var k := |sh.path[q]|;
    if s in sh.content {
      assert KeyOk(a, T, sh, s);
      var h := sh.home[s];
      assert h != 0 && CellOk(a, T, sh, h);
      if |sh.path[h]| <= k {
        assert sh.path[h] <= sh.path[q];
        LeafEndsPath(a, T.cells, sh.path, h, q);
      } else {
        var c := Ancestor(a, T.cells, sh.path, h, k + 1);
        assert sh.path[c] == sh.path[q] + [(s + [a.term])[k]];
        ChildAtSlot(a, T.cells, sh.path, q, (s + [a.term])[k], c);
      }
    }
  }

  /** At a leaf on the way to `s`, the key is stored exactly if the tail is the rest of it. */
  lemma LeafDecides(a: Alphabet, T: Table, sh: Shape, p: int, s: Str)
    requires WellFormed(a, T, sh) && p in sh.path && p != 0 && Leaf(T.cells, p)
    requires sh.path[p] <= s + [a.term] && a.term !in s
    ensures s in sh.content <==> Text(T, -1 - At(T.cells, p).base) == Rest(s, |sh.path[p]|)
    ensures p in sh.owner && (s in sh.content <==> s == sh.owner[p])
    ensures s in sh.content ==> sh.content[s] == -At(T.cells, p).base
  {
    CellFacts(a, T, sh, p);
    var o := sh.owner[p];
    SameRest(a, o, s, sh.path[p]);
    if s in sh.content { KeyAtLeaf(a, T, sh, p, s); }
    hide WellFormed, ChildOk, Text, Rest;
  }

  /** A key that passes through a leaf ends there. */
  lemma KeyAtLeaf(a: Alphabet, T: Table, sh: Shape, p: int, s: Str)
    requires WellFormed(a, T, sh) && p in sh.path && p != 0 && Leaf(T.cells, p)
    requires sh.path[p] <= s + [a.term] && s in sh.content
    ensures p in sh.owner && s == sh.owner[p]
  {
    assert KeyOk(a, T, sh, s) && CellOk(a, T, sh, p);
    var h := sh.home[s];
    assert h != 0 && CellOk(a, T, sh, h);
    hide WellFormed, KeyOk, Text, Rest, Leaf;
    if |sh.path[h]| <= |sh.path[p]| {
      assert sh.path[h] <= sh.path[p];
      LeafEndsPath(a, T.cells, sh.path, h, p);
    } else {
      assert sh.path[p] <= sh.path[h];
      LeafEndsPath(a, T.cells, sh.path, p, h);
    }
  }

  lemma SameRest(a: Alphabet, o: Str, s: Str, w: Str)
    requires w <= o + [a.term] && w <= s + [a.term] && a.term !in s && a.term !in o
    ensures Rest(o, |w|) == Rest(s, |w|) <==> o == s
  {
    assert |w| > |s| ==> w[|s|] == a.term;
    assert |w| > |o| ==> w[|o|] == a.term;
    if Rest(o, |w|) == Rest(s, |w|) {
      if |w| <= |o| && |w| <= |s| {
        assert o == w + Rest(o, |w|);
        assert s == w + Rest(s, |w|);
      } else if |w| > |o| && |w| > |s| {
        assert o == w[..|o|] == s;
      }
    }
  }

  /** A cell that takes over another's path, owner and kind is as much in order as the other was. */
  lemma CellTransfers(a: Alphabet, T: Table, sh: Shape, x0: int, T': Table, sh': Shape, x: int)
    requires x0 in sh.path && CellOk(a, T, sh, x0) && x in sh'.path && x in sh'.owner
    requires sh'.content == sh.content && sh'.path[x] == sh.path[x0] && sh'.owner[x] == sh.owner[x0]
    requires Leaf(T'.cells, x) <==> Leaf(T.cells, x0)
    requires Leaf(T.cells, x0) ==>
      && At(T'.cells, x).base == At(T.cells, x0).base
      && sh.owner[x0] in sh'.home && sh'.home[sh.owner[x0]] == x
      && Text(T', -1 - At(T.cells, x0).base) == Text(T, -1 - At(T.cells, x0).base)
    ensures CellOk(a, T', sh', x)
  {
    hide Text, Rest, At, Leaf;
  }

  // ---------------------------------------------------------------- what updates keep

  ghost predicate Extends(t: seq<Cell>, t': seq<Cell>) {
    |t| <= |t'| && forall p :: At(t', p) == At(t, p)
  }

  lemma ExtendKeeps(a: Alphabet, T: Table, sh: Shape, t': seq<Cell>)
    requires WellFormed(a, T, sh) && Extends(T.cells, t')
    ensures WellFormed(a, T.(cells := t'), sh)
  {
    var T' := T.(cells := t');
    forall p | p in sh.path && p != 0 ensures ChildOk(a, t', sh.path, p) && CellOk(a, T', sh, p) {
      assert ChildOk(a, T.cells, sh.path, p) && CellOk(a, T, sh, p);
    }
    forall s | s in sh.content ensures KeyOk(a, T', sh, s) {
      assert KeyOk(a, T, sh, s);
    }
  }

  function WithLeaf(sh: Shape, p: int, w: Str, s: Str, i: int): Shape {
    Shape(sh.path[p := w], sh.owner[p := s], sh.home[s := p], sh.content[s := i + 1], sh.named[i + 1 := s])
  }

  /** Hanging a leaf entry on a vacant slot leaves the other cells in order. */
  lemma AddLeafCell(a: Alphabet, T: Table, sh: Shape, q: int, ch: int, s: Str, i: int, x: int)
    requires WellFormed(a, T, sh) && q in sh.path && !Leaf(T.cells, q) && a.HasCode(ch)
    requires var p := Slot(a, T.cells, q, ch); 0 <= p < |T.cells| && !Used(T.cells, p)
    requires sh.path[q] + [ch] <= s + [a.term] && s !in sh.content
    requires 0 <= i < |T.refs| && Text(T, i) == Rest(s, |sh.path[q]| + 1)
    requires x != 0
    requires x == Slot(a, T.cells, q, ch) || x in sh.path
    ensures var p := Slot(a, T.cells, q, ch);
      var T', sh' := T.(cells := T.cells[p := Cell(-1 - i, q)]), WithLeaf(sh, p, sh.path[q] + [ch], s, i);
      ChildOk(a, T'.cells, sh'.path, x) && CellOk(a, T', sh', x)
  {
    var p := Slot(a, T.cells, q, ch);
    assert Used(T.cells, q) && q != p;
    if x != p {
      assert ChildOk(a, T.cells, sh.path, x) && CellOk(a, T, sh, x);
      var y := At(T.cells, x).check;
      assert Used(T.cells, x) && Used(T.cells, y);
    }
  }

  lemma AddLeafKey(a: Alphabet, T: Table, sh: Shape, q: int, ch: int, s: Str, i: int, x: Str)
    requires WellFormed(a, T, sh)
    requires var p := Slot(a, T.cells, q, ch); 0 <= p < |T.cells| && !Used(T.cells, p)
    requires a.Legal(s) && s !in sh.content && 0 <= i < |T.refs|
    requires forall y :: y in sh.content ==> sh.content[y] != i + 1
    requires x == s || x in sh.content
    ensures var p := Slot(a, T.cells, q, ch);
      var T', sh' := T.(cells := T.cells[p := Cell(-1 - i, q)]), WithLeaf(sh, p, sh.path[q] + [ch], s, i);
      KeyOk(a, T', sh', x)
    requires q in sh.path
  {
    if x != s {
      assert KeyOk(a, T, sh, x);
      assert Used(T.cells, sh.home[x]);
    }
  }

  /** Hanging a leaf entry on a vacant slot stores exactly one more key. */
  lemma AddLeafKeeps(a: Alphabet, T: Table, sh: Shape, q: int, ch: int, s: Str, i: int)
    requires WellFormed(a, T, sh) && q in sh.path && !Leaf(T.cells, q) && a.HasCode(ch)
    requires var p := Slot(a, T.cells, q, ch); 0 <= p < |T.cells| && !Used(T.cells, p)
    requires sh.path[q] + [ch] <= s + [a.term] && a.Legal(s) && s !in sh.content
    requires forall x :: x in sh.content ==> sh.content[x] != i + 1
    requires 0 <= i < |T.refs| && Text(T, i) == Rest(s, |sh.path[q]| + 1)
    ensures var p := Slot(a, T.cells, q, ch);
      WellFormed(a, T.(cells := T.cells[p := Cell(-1 - i, q)]), WithLeaf(sh, p, sh.path[q] + [ch], s, i))
  {
    hide ChildOk, CellOk, KeyOk, Text;
    var p := Slot(a, T.cells, q, ch);
    var t' := T.cells[p := Cell(-1 - i, q)];
    var T', sh' := T.(cells := t'), WithLeaf(sh, p, sh.path[q] + [ch], s, i);
    assert Used(T.cells, q) && q != p;
    assert Used(T.cells, 0) && p != 0;
    assert forall x :: x != p ==> At(t', x) == At(T.cells, x);
    forall x | x in sh'.path && x != 0 ensures ChildOk(a, t', sh'.path, x) && CellOk(a, T', sh', x) {
      AddLeafCell(a, T, sh, q, ch, s, i, x);
    }
    forall x | x in sh'.content ensures KeyOk(a, T', sh', x) {
      AddLeafKey(a, T, sh, q, ch, s, i, x);
    }
  }

  /** The table after leaf `p` has handed its entry to a new child `n` under the next character `ch`. */
  function PushedDown(a: Alphabet, T: Table, p: int, n: int, ch: int): Table
    requires 0 <= p < |T.cells| && 0 <= n < |T.cells| && 0 <= -1 - T.cells[p].base < |T.refs|
  {
    var i := -1 - T.cells[p].base;
    var r := T.refs[i];
    Table(T.cells[n := Cell(T.cells[p].base, p)][p := Cell(n - (ch - a.off), T.cells[p].check)], T.tail,
          T.refs[i := if r.size == 0 then r else TailRef(r.offset + 1, r.size - 1)])
  }

  function WithChild(sh: Shape, p: int, n: int, ch: int): Shape
    requires p in sh.path && p in sh.owner
  {
    sh.(path := sh.path[n := sh.path[p] + [ch]], owner := sh.owner[n := sh.owner[p]], home := sh.home[sh.owner[p] := n])
  }

  ghost predicate CanPush(a: Alphabet, T: Table, sh: Shape, p: int, n: int, ch: int) {
    && p in sh.path && p != 0 && Leaf(T.cells, p) && p in sh.owner
    && |sh.path[p]| <= |sh.owner[p]| && ch == (sh.owner[p] + [a.term])[|sh.path[p]|]
    && ch - a.off <= n < |T.cells| && 0 <= n && !Used(T.cells, n)
    && 0 <= p < |T.cells| && 0 <= -1 - T.cells[p].base < |T.refs|
  }

  lemma TailStep(tail: Str, from: nat, size: nat, o: Str, k: nat)
    requires from + size <= |tail| && k <= |o| && tail[from..from + size] == o[k..]
    ensures size == |o| - k && (size > 0 ==> tail[from + 1..from + size] == o[k + 1..])
  {
    if size > 0 { assert tail[from + 1..from + size] == tail[from..from + size][1..]; }
  }

  lemma PathStep(w: Str, o: Str, term: int)
    requires w <= o + [term] && |w| <= |o|
    ensures w <= o && w + [(o + [term])[|w|]] <= o + [term]
  {
  }

  lemma LeafText(a: Alphabet, T: Table, sh: Shape, p: int)
    requires WellFormed(a, T, sh) && p in sh.path && p != 0 && Leaf(T.cells, p)
    ensures p in sh.owner && Text(T, -1 - At(T.cells, p).base) == Rest(sh.owner[p], |sh.path[p]|)
  {
    hide WellFormed;
    CellFacts(a, T, sh, p);
  }

  /** The handed-down entry holds one character less. */
  lemma PushedText(a: Alphabet, T: Table, p: int, n: int, ch: int, o: Str, k: nat)
    requires 0 <= p < |T.cells| && 0 <= n < |T.cells| && 0 <= -1 - T.cells[p].base < |T.refs|
    requires RefsOk(T) && k <= |o| && Text(T, -1 - T.cells[p].base) == Rest(o, k)
    ensures var T' := PushedDown(a, T, p, n, ch); RefsOk(T') && Text(T', -1 - T.cells[p].base) == Rest(o, k + 1)
  {
    var r := T.refs[-1 - T.cells[p].base];
    TailStep(T.tail, r.offset, r.size, o, k);
  }

  lemma PushDownTail(a: Alphabet, T: Table, sh: Shape, p: int, n: int, ch: int)
    requires WellFormed(a, T, sh) && CanPush(a, T, sh, p, n, ch)
    ensures var T' := PushedDown(a, T, p, n, ch);
      RefsOk(T') && Text(T', -1 - T.cells[p].base) == Rest(sh.owner[p], |sh.path[p]| + 1)
  {
    LeafText(a, T, sh, p);
    CellFacts(a, T, sh, p);
    assert At(T.cells, p) == T.cells[p] && |sh.path[p]| <= |sh.owner[p]|;
    hide *;
    PushedText(a, T, p, n, ch, sh.owner[p], |sh.path[p]|);
  }

  lemma PushDownOther(a: Alphabet, T: Table, p: int, n: int, ch: int, j: int)
    requires 0 <= p < |T.cells| && 0 <= n < |T.cells| && 0 <= -1 - T.cells[p].base < |T.refs|
    requires j != -1 - T.cells[p].base
    ensures Text(PushedDown(a, T, p, n, ch), j) == Text(T, j)
  {
  }

  lemma PushedAt(a: Alphabet, T: Table, p: int, n: int, ch: int, x: int)
    requires 0 <= p < |T.cells| && 0 <= n < |T.cells| && n != p && 0 <= -1 - T.cells[p].base < |T.refs|
    ensures At(PushedDown(a, T, p, n, ch).cells, x) ==
      if x == p then Cell(n - (ch - a.off), At(T.cells, p).check) else if x == n then Cell(At(T.cells, p).base, p) else At(T.cells, x)
  {
  }

  lemma PushDownNewChild(a: Alphabet, T: Table, sh: Shape, p: int, n: int, ch: int)
    requires WellFormed(a, T, sh) && CanPush(a, T, sh, p, n, ch)
    ensures ChildOk(a, PushedDown(a, T, p, n, ch).cells, WithChild(sh, p, n, ch).path, n)
  {
    hide WellFormed, CellOk, PushedDown, At;
    CellFacts(a, T, sh, p);
    PushedAt(a, T, p, n, ch, n);
    PushedAt(a, T, p, n, ch, p);
    assert ch in sh.owner[p] || ch == a.term;
  }

  lemma PushDownOldChild(a: Alphabet, T: Table, sh: Shape, p: int, n: int, ch: int, x: int)
    requires WellFormed(a, T, sh) && CanPush(a, T, sh, p, n, ch)
    requires x != 0 && x in sh.path && x != n
    ensures ChildOk(a, PushedDown(a, T, p, n, ch).cells, WithChild(sh, p, n, ch).path, x)
  {
    hide WellFormed, CellOk, KeyOk, PushedDown, At;
    CellFacts(a, T, sh, p);
    CellFacts(a, T, sh, x);
    PushedAt(a, T, p, n, ch, x);
    PushedAt(a, T, p, n, ch, At(T.cells, x).check);
  }

  lemma PushDownChild(a: Alphabet, T: Table, sh: Shape, p: int, n: int, ch: int, x: int)
    requires WellFormed(a, T, sh) && CanPush(a, T, sh, p, n, ch)
    requires x != 0 && (x == n || x in sh.path)
    ensures ChildOk(a, PushedDown(a, T, p, n, ch).cells, WithChild(sh, p, n, ch).path, x)
  {
    hide WellFormed, ChildOk;
    if x == n { PushDownNewChild(a, T, sh, p, n, ch); } else { PushDownOldChild(a, T, sh, p, n, ch, x); }
  }

  /** The cell that takes the leaf over. */
  lemma PushDownNew(a: Alphabet, T: Table, sh: Shape, p: int, n: int, ch: int)
    requires WellFormed(a, T, sh) && CanPush(a, T, sh, p, n, ch)
    ensures CellOk(a, PushedDown(a, T, p, n, ch), WithChild(sh, p, n, ch), n)
  {
    assert At(T.cells, p) == T.cells[p];
    hide WellFormed, ChildOk, Text, RefsOk, At, PushedDown, Rest;
    CellFacts(a, T, sh, p);
    hide KeyOk;
    PathStep(sh.path[p], sh.owner[p], a.term);
    PushDownTail(a, T, sh, p, n, ch);
    PushedAt(a, T, p, n, ch, n);
  }

  /** The cell that hands it down. */
  lemma PushDownOld(a: Alphabet, T: Table, sh: Shape, p: int, n: int, ch: int)
    requires WellFormed(a, T, sh) && CanPush(a, T, sh, p, n, ch)
    ensures CellOk(a, PushedDown(a, T, p, n, ch), WithChild(sh, p, n, ch), p)
  {
    hide WellFormed, ChildOk, KeyOk, Text, RefsOk, At, PushedDown, Rest;
    CellFacts(a, T, sh, p);
    PushedAt(a, T, p, n, ch, p);
  }

  /** Two leaves belong to different keys and name different entries. */
  lemma LeavesApart(a: Alphabet, T: Table, sh: Shape, p: int, x: int)
    requires WellFormed(a, T, sh) && p in sh.path && x in sh.path && p != 0 && x != 0 && x != p
    requires Leaf(T.cells, p) && Leaf(T.cells, x)
    ensures p in sh.owner && x in sh.owner && sh.owner[x] != sh.owner[p] && At(T.cells, x).base != At(T.cells, p).base
  {
    hide WellFormed, ChildOk, Text, Rest, Used;
    CellFacts(a, T, sh, p);
    CellFacts(a, T, sh, x);
  }

  lemma OwnHome(a: Alphabet, T: Table, sh: Shape, x: int)
    requires WellFormed(a, T, sh) && x in sh.path && x != 0 && Leaf(T.cells, x)
    ensures x in sh.owner && sh.owner[x] in sh.home && sh.home[sh.owner[x]] == x
  {
    hide WellFormed;
    CellFacts(a, T, sh, x);
  }

  lemma PushDownRest(a: Alphabet, T: Table, sh: Shape, p: int, n: int, ch: int, x: int)
    requires WellFormed(a, T, sh) && CanPush(a, T, sh, p, n, ch)
    requires x in sh.path && x != 0 && x != p && x != n
    ensures CellOk(a, PushedDown(a, T, p, n, ch), WithChild(sh, p, n, ch), x)
  {
    CellFacts(a, T, sh, x);
    assert At(T.cells, p) == T.cells[p] && Used(T.cells, p);
    PushedAt(a, T, p, n, ch, x);
    if Leaf(T.cells, x) {
      LeavesApart(a, T, sh, p, x);
      OwnHome(a, T, sh, x);
      PushDownOther(a, T, p, n, ch, -1 - At(T.cells, x).base);
    }
    hide WellFormed, CellOk, KeyOk, Text, ChildOk, RefsOk, At, PushedDown, Rest;
    CellTransfers(a, T, sh, x, PushedDown(a, T, p, n, ch), WithChild(sh, p, n, ch), x);
  }

  lemma PushDownCell(a: Alphabet, T: Table, sh: Shape, p: int, n: int, ch: int, x: int)
    requires WellFormed(a, T, sh) && CanPush(a, T, sh, p, n, ch)
    requires x != 0 && (x == n || x in sh.path)
    ensures CellOk(a, PushedDown(a, T, p, n, ch), WithChild(sh, p, n, ch), x)
  {
    hide WellFormed, CellOk;
    if x == n {
      PushDownNew(a, T, sh, p, n, ch);
    } else if x == p {
      PushDownOld(a, T, sh, p, n, ch);
    } else {
      PushDownRest(a, T, sh, p, n, ch, x);
    }
  }

  /** Handing a leaf one character down stores the same keys under the same numbers. */
  lemma PushDownKeeps(a: Alphabet, T: Table, sh: Shape, p: int, n: int, ch: int)
    requires WellFormed(a, T, sh) && CanPush(a, T, sh, p, n, ch)
    ensures WellFormed(a, PushedDown(a, T, p, n, ch), WithChild(sh, p, n, ch))
    ensures Leaf(PushedDown(a, T, p, n, ch).cells, n)
  {
    hide ChildOk, Text;
    var T', sh' := PushedDown(a, T, p, n, ch), WithChild(sh, p, n, ch);
    assert Used(T.cells, p) && Used(T.cells, 0) && n != p && n != 0;
    PushDownTail(a, T, sh, p, n, ch);
    assert forall x :: x != p && x != n ==> At(T'.cells, x) == At(T.cells, x);
    assert At(T'.cells, p).check == At(T.cells, p).check;
    forall x | x in sh'.path && x != 0 ensures ChildOk(a, T'.cells, sh'.path, x) && CellOk(a, T', sh', x) {
      PushDownChild(a, T, sh, p, n, ch, x);
      PushDownCell(a, T, sh, p, n, ch, x);
    }
    var o := sh.owner[p];
    assert CellOk(a, T, sh, p) && KeyOk(a, T, sh, o);
    forall s | s in sh'.content ensures KeyOk(a, T', sh', s) {
      assert KeyOk(a, T, sh, s);
      if s != o {
        assert sh.home[s] != p;
        assert sh.home[s] != n;
      }
    }
  }

  // ---------------------------------------------------------------- moving the children of a cell

  /** Cell `x` once the children of one parent with the codes `D` have moved from base `b` to base `nb`;
      a child of a moved cell is told its parent's new position. */
  function MovedCell(a: Alphabet, t: seq<Cell>, b: int, nb: int, D: set<int>, x: int): Cell {
    if x - nb in D then At(t, b + (x - nb))
    else if x - b in D then VACANT
    else
      var q := At(t, x).check;
      if q - b in D && !Leaf(t, q) && 1 <= x - At(t, q).base <= a.cnt
      then Cell(At(t, x).base, nb + (q - b)) else At(t, x)
  }

  ghost predicate CellMoved(a: Alphabet, t: seq<Cell>, t': seq<Cell>, q: int, nb: int, D: set<int>, x: int) {
    At(t', x) == if x == q then Cell(nb, At(t, q).check) else MovedCell(a, t, At(t, q).base, nb, D, x)
  }

  /** `t'` is `t` with the children `D` of `q` moved to base `nb`. */
  ghost predicate Relocated(a: Alphabet, t: seq<Cell>, t': seq<Cell>, q: int, nb: int, D: set<int>) {
    forall x {:trigger CellMoved(a, t, t', q, nb, D, x)} :: CellMoved(a, t, t', q, nb, D, x)
  }

  ghost predicate ChildAt(t: seq<Cell>, q: int, c: int) { At(t, At(t, q).base + c).check == q }

  ghost predicate ChildCode(a: Alphabet, t: seq<Cell>, q: int, c: int) { 1 <= c <= a.cnt && ChildAt(t, q, c) }

  ghost predicate CodeMoves(a: Alphabet, t: seq<Cell>, q: int, nb: int, D: set<int>, c: int) {
    (c in D <==> ChildCode(a, t, q, c)) && (c in D ==> !Used(t, nb + c))
  }

  ghost predicate CanMove(a: Alphabet, T: Table, sh: Shape, q: int, nb: int, D: set<int>) {
    && q in sh.path && !Leaf(T.cells, q) && nb >= 0
    && (forall c {:trigger CodeMoves(a, T.cells, q, nb, D, c)} :: CodeMoves(a, T.cells, q, nb, D, c))
  }

  function NewPos(b: int, nb: int, D: set<int>, x: int): int { if x - b in D then nb + (x - b) else x }

  function OldPos(b: int, nb: int, D: set<int>, x: int): int { if x - nb in D then b + (x - nb) else x }

  predicate InUse(path: map<int, Str>, b: int, nb: int, D: set<int>, x: int) {
    OldPos(b, nb, D, x) in path && (x - nb in D || x - b !in D)
  }

  /** The shape with positions renamed, for an array of `n` cells. */
  function Renamed(sh: Shape, b: int, nb: int, D: set<int>, n: int): Shape {
    sh.(path := map x | 0 <= x < n && InUse(sh.path, b, nb, D, x) :: sh.path[OldPos(b, nb, D, x)],
        owner := map x | 0 <= x < n && OldPos(b, nb, D, x) in sh.owner :: sh.owner[OldPos(b, nb, D, x)],
        home := map s | s in sh.home :: NewPos(b, nb, D, sh.home[s]))
  }

  /** Where the moved cells were and where they go. */
  lemma MoveFacts(a: Alphabet, T: Table, sh: Shape, q: int, nb: int, D: set<int>, c: int)
    requires WellFormed(a, T, sh) && CanMove(a, T, sh, q, nb, D) && c in D
    ensures var p := At(T.cells, q).base + c;
      p in sh.path && p != 0 && p != q && At(T.cells, p).check == q && sh.path[p] == sh.path[q] + [c + a.off]
    ensures c >= 1 && nb + c !in sh.path && nb + c != q && nb + c != 0
  {
    assert CodeMoves(a, T.cells, q, nb, D, c);
    assert Used(T.cells, q) && Used(T.cells, 0);
    SlotIsChild(a, T.cells, sh.path, q, c + a.off);
  }

  lemma MovedDomain(a: Alphabet, T: Table, sh: Shape, q: int, nb: int, D: set<int>, t': seq<Cell>, x: int)
    requires WellFormed(a, T, sh) && CanMove(a, T, sh, q, nb, D) && Relocated(a, T.cells, t', q, nb, D)
    ensures x in Renamed(sh, At(T.cells, q).base, nb, D, |t'|).path <==> Used(t', x)
  {
    var b := At(T.cells, q).base;
    assert Used(T.cells, q) && CellMoved(a, T.cells, t', q, nb, D, x);
    if x - nb in D {
      MoveFacts(a, T, sh, q, nb, D, x - nb);
    } else if x - b in D {
      MoveFacts(a, T, sh, q, nb, D, x - b);
    } else {
      assert x in sh.path <==> Used(T.cells, x);
      var y := At(T.cells, x).check;
      if y - b in D {
        MoveFacts(a, T, sh, q, nb, D, y - b);
      }
    }
  }

  /** A cell that does not move keeps its path and its kind. */
  lemma Unmoved(a: Alphabet, T: Table, sh: Shape, q: int, nb: int, D: set<int>, t': seq<Cell>, y: int)
    requires WellFormed(a, T, sh) && CanMove(a, T, sh, q, nb, D) && Relocated(a, T.cells, t', q, nb, D)
    requires y in sh.path && y - At(T.cells, q).base !in D
    ensures var path' := Renamed(sh, At(T.cells, q).base, nb, D, |t'|).path; y in path' && path'[y] == sh.path[y]
    ensures At(t', y).base == if y == q then nb else At(T.cells, y).base
  {
    if y - nb in D { MoveFacts(a, T, sh, q, nb, D, y - nb); }
    assert Used(T.cells, y) && CellMoved(a, T.cells, t', q, nb, D, y);
    var z := At(T.cells, y).check;
    if z - At(T.cells, q).base in D { MoveFacts(a, T, sh, q, nb, D, z - At(T.cells, q).base); }
  }

  /** A moved cell keeps its path and its base. */
  lemma Moved(a: Alphabet, T: Table, sh: Shape, q: int, nb: int, D: set<int>, t': seq<Cell>, y: int)
    requires WellFormed(a, T, sh) && CanMove(a, T, sh, q, nb, D) && Relocated(a, T.cells, t', q, nb, D)
    requires y - At(T.cells, q).base in D
    ensures var b := At(T.cells, q).base;
      var path' := Renamed(sh, b, nb, D, |t'|).path;
      && y in sh.path && nb + (y - b) in path' && path'[nb + (y - b)] == sh.path[y]
      && At(t', nb + (y - b)) == At(T.cells, y)
  {
    var b := At(T.cells, q).base;
    MoveFacts(a, T, sh, q, nb, D, y - b);
    assert CellMoved(a, T.cells, t', q, nb, D, nb + (y - b));
  }

  lemma ParentStays(a: Alphabet, T: Table, sh: Shape, q: int, nb: int, D: set<int>)
    requires WellFormed(a, T, sh) && CanMove(a, T, sh, q, nb, D)
    ensures q - At(T.cells, q).base !in D && q - nb !in D && 0 - At(T.cells, q).base !in D && 0 - nb !in D
  {
    var b := At(T.cells, q).base;
    if q - b in D { MoveFacts(a, T, sh, q, nb, D, q - b); }
    if q - nb in D { MoveFacts(a, T, sh, q, nb, D, q - nb); }
    if 0 - b in D { MoveFacts(a, T, sh, q, nb, D, 0 - b); }
    if 0 - nb in D { MoveFacts(a, T, sh, q, nb, D, 0 - nb); }
  }

  /** A moved cell is a child of `q` under the new base. */
  lemma MovedIsChild(a: Alphabet, T: Table, sh: Shape, q: int, nb: int, D: set<int>, t': seq<Cell>, x: int)
    requires WellFormed(a, T, sh) && CanMove(a, T, sh, q, nb, D) && Relocated(a, T.cells, t', q, nb, D)
    requires x - nb in D && x in Renamed(sh, At(T.cells, q).base, nb, D, |t'|).path
    ensures ChildOk(a, t', Renamed(sh, At(T.cells, q).base, nb, D, |t'|).path, x)
  {
    var b := At(T.cells, q).base;
    ParentStays(a, T, sh, q, nb, D);
    assert q in sh.path;
    hide CellOk, KeyOk;
    Unmoved(a, T, sh, q, nb, D, t', q);
    MoveFacts(a, T, sh, q, nb, D, x - nb);
    Moved(a, T, sh, q, nb, D, t', b + (x - nb));
    CellFacts(a, T, sh, b + (x - nb));
    hide WellFormed, CanMove, Relocated, Renamed, At;
  }

  /** Any other cell is still the child of its parent, wherever that has gone. */
  lemma StillIsChild(a: Alphabet, T: Table, sh: Shape, q: int, nb: int, D: set<int>, t': seq<Cell>, x: int)
    requires WellFormed(a, T, sh) && CanMove(a, T, sh, q, nb, D) && Relocated(a, T.cells, t', q, nb, D)
    requires x != 0 && x - nb !in D && x - At(T.cells, q).base !in D && x in sh.path
    requires x in Renamed(sh, At(T.cells, q).base, nb, D, |t'|).path
    ensures ChildOk(a, t', Renamed(sh, At(T.cells, q).base, nb, D, |t'|).path, x)
  {
    var b := At(T.cells, q).base;
    CellFacts(a, T, sh, x);
    assert CellMoved(a, T.cells, t', q, nb, D, x);
    var y := At(T.cells, x).check;
    Unmoved(a, T, sh, q, nb, D, t', x);
    if y - b in D {
      Moved(a, T, sh, q, nb, D, t', y);
      MoveFacts(a, T, sh, q, nb, D, y - b);
    } else {
      Unmoved(a, T, sh, q, nb, D, t', y);
      assert CodeMoves(a, T.cells, q, nb, D, x - b);
    }
    hide WellFormed, CanMove, Relocated, Renamed, CellOk, KeyOk, At;
  }

  lemma MovedChild(a: Alphabet, T: Table, sh: Shape, q: int, nb: int, D: set<int>, t': seq<Cell>, x: int)
    requires WellFormed(a, T, sh) && CanMove(a, T, sh, q, nb, D) && Relocated(a, T.cells, t', q, nb, D)
    requires x != 0 && x in Renamed(sh, At(T.cells, q).base, nb, D, |t'|).path
    ensures ChildOk(a, t', Renamed(sh, At(T.cells, q).base, nb, D, |t'|).path, x)
  {
    hide WellFormed, CanMove, Relocated, ChildOk;
    if x - nb in D {
      MovedIsChild(a, T, sh, q, nb, D, t', x);
    } else {
      StillIsChild(a, T, sh, q, nb, D, t', x);
    }
  }

  lemma SameTexts(T: Table, t': seq<Cell>, i: int)
    ensures Text(T.(cells := t'), i) == Text(T, i)
  {
  }

  /** The cell `x` stands for the old cell `x0`. */
  lemma MovedPath(a: Alphabet, T: Table, sh: Shape, q: int, nb: int, D: set<int>, t': seq<Cell>, x0: int, x: int)
    requires WellFormed(a, T, sh) && CanMove(a, T, sh, q, nb, D) && Relocated(a, T.cells, t', q, nb, D)
    requires x0 == OldPos(At(T.cells, q).base, nb, D, x)
    requires x != 0 && x in Renamed(sh, At(T.cells, q).base, nb, D, |t'|).path
    ensures x0 in sh.path && x0 != 0 && NewPos(At(T.cells, q).base, nb, D, x0) == x
    ensures Leaf(t', x) <==> Leaf(T.cells, x0)
    ensures Leaf(T.cells, x0) ==> At(t', x).base == At(T.cells, x0).base
  {
    var b := At(T.cells, q).base;
    hide CellOk, KeyOk, ChildOk;
    if x - nb in D {
      MoveFacts(a, T, sh, q, nb, D, x - nb);
      Moved(a, T, sh, q, nb, D, t', x0);
    } else {
      Unmoved(a, T, sh, q, nb, D, t', x);
    }
  }

  lemma MovedCellOk(a: Alphabet, T: Table, sh: Shape, q: int, nb: int, D: set<int>, t': seq<Cell>, x0: int, x: int)
    requires WellFormed(a, T, sh) && CanMove(a, T, sh, q, nb, D) && Relocated(a, T.cells, t', q, nb, D)
    requires x0 == OldPos(At(T.cells, q).base, nb, D, x)
    requires x != 0 && x in Renamed(sh, At(T.cells, q).base, nb, D, |t'|).path
    ensures CellOk(a, T.(cells := t'), Renamed(sh, At(T.cells, q).base, nb, D, |t'|), x)
  {
    hide WellFormed, CanMove, Relocated, CellOk, KeyOk, ChildOk, Text, At, Leaf;
    var b := At(T.cells, q).base;
    MovedPath(a, T, sh, q, nb, D, t', x0, x);
    CellFacts(a, T, sh, x0);
    OwnerKnown(a, T, sh, x0);
    if Leaf(T.cells, x0) { OwnHome(a, T, sh, x0); }
    SameTexts(T, t', -1 - At(T.cells, x0).base);
    CellTransfers(a, T, sh, x0, T.(cells := t'), Renamed(sh, b, nb, D, |t'|), x);
  }

  lemma OwnerKnown(a: Alphabet, T: Table, sh: Shape, x: int)
    requires x in sh.path && CellOk(a, T, sh, x)
    ensures x in sh.owner
  {
  }

  lemma MovedKey(a: Alphabet, T: Table, sh: Shape, q: int, nb: int, D: set<int>, t': seq<Cell>, s: Str)
    requires WellFormed(a, T, sh) && CanMove(a, T, sh, q, nb, D) && Relocated(a, T.cells, t', q, nb, D)
    requires s in sh.content
    ensures KeyOk(a, T.(cells := t'), Renamed(sh, At(T.cells, q).base, nb, D, |t'|), s)
  {
    var b := At(T.cells, q).base;
    assert KeyOk(a, T, sh, s);
    var h := sh.home[s];
    assert Used(T.cells, h);
    if h - nb in D { MoveFacts(a, T, sh, q, nb, D, h - nb); }
    if h - b in D { MoveFacts(a, T, sh, q, nb, D, h - b); }
    assert CellMoved(a, T.cells, t', q, nb, D, NewPos(b, nb, D, h));
  }

  lemma MovedTree(a: Alphabet, T: Table, sh: Shape, q: int, nb: int, D: set<int>, t': seq<Cell>)
    requires WellFormed(a, T, sh) && CanMove(a, T, sh, q, nb, D) && Relocated(a, T.cells, t', q, nb, D)
    ensures Tree(a, t', Renamed(sh, At(T.cells, q).base, nb, D, |t'|).path)
  {
    var path' := Renamed(sh, At(T.cells, q).base, nb, D, |t'|).path;
    ParentStays(a, T, sh, q, nb, D);
    assert Used(T.cells, 0);
    Unmoved(a, T, sh, q, nb, D, t', 0);
    forall x ensures x in path' <==> Used(t', x) {
      MovedDomain(a, T, sh, q, nb, D, t', x);
    }
    forall x | x in path' && x != 0 ensures ChildOk(a, t', path', x) {
      MovedChild(a, T, sh, q, nb, D, t', x);
    }
    assert At(t', 0).check == 0 by {
      assert CellMoved(a, T.cells, t', q, nb, D, 0);
      if At(T.cells, 0).check - At(T.cells, q).base in D { MoveFacts(a, T, sh, q, nb, D, 0 - At(T.cells, q).base); }
    }
  }

  /** Moving all children of a cell renames positions and stores the same keys under the same numbers. */
  lemma RelocateKeeps(a: Alphabet, T: Table, sh: Shape, q: int, nb: int, D: set<int>, t': seq<Cell>)
    requires WellFormed(a, T, sh) && CanMove(a, T, sh, q, nb, D) && Relocated(a, T.cells, t', q, nb, D)
    ensures WellFormed(a, T.(cells := t'), Renamed(sh, At(T.cells, q).base, nb, D, |t'|))
    ensures var path' := Renamed(sh, At(T.cells, q).base, nb, D, |t'|).path; q in path' && path'[q] == sh.path[q]
    ensures !Leaf(t', q)
  {
    hide ChildOk, CellOk, KeyOk, Text;
    var T', sh' := T.(cells := t'), Renamed(sh, At(T.cells, q).base, nb, D, |t'|);
    MovedTree(a, T, sh, q, nb, D, t');
    ParentStays(a, T, sh, q, nb, D);
    Unmoved(a, T, sh, q, nb, D, t', q);
    forall x | x in sh'.path && x != 0 ensures CellOk(a, T', sh', x) {
      MovedCellOk(a, T, sh, q, nb, D, t', OldPos(At(T.cells, q).base, nb, D, x), x);
    }
    forall s | s in sh'.content ensures KeyOk(a, T', sh', s) {
      MovedKey(a, T, sh, q, nb, D, t', s);
    }
  }
}
