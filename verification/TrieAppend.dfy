/** What append of utils/nomenclate.cpp makes of a table, and what that means for the stored strings. */
module TrieAppend {
  import opened DoubleArray
  import opened TrieUpdates
  import opened TrieSearch
  import opened UnseenChild

  const EMPTY := Table([Cell(0, 0)], [], [])

  /** What the code relies on to stay inside its arrays, whether or not the table is well formed. */
  ghost predicate Sound(a: Alphabet, T: Table) {
    && a.Valid() && RefsOk(T) && |T.cells| > 0 && At(T.cells, 0).check == 0 && !Leaf(T.cells, 0) && NoSelf(T.cells)
    && LeavesNamed(T.cells, |T.refs|) && Coded(a, T.tail)
  }

  /** Leaves name entries there are. */
  ghost predicate LeavesNamed(t: seq<Cell>, n: nat) {
    forall p {:trigger Leaf(t, p)} :: Leaf(t, p) ==> -At(t, p).base <= n
  }

  ghost predicate Coded(a: Alphabet, s: Str) { forall ch :: ch in s ==> a.HasCode(ch) }

  // ---------------------------------------------------------------- the steps of append

  /** A new entry holding `rest`. */
  function WithText(T: Table, rest: Str): (r: Table)
    ensures r.cells == T.cells && |r.refs| == |T.refs| + 1
  {
    T.(tail := T.tail + rest, refs := T.refs + [TailRef(if rest == [] then 0 else |T.tail|, |rest|)])
  }

  lemma WithTextFacts(a: Alphabet, T: Table, rest: Str)
    requires RefsOk(T)
    ensures var U := WithText(T, rest);
      && RefsOk(U) && Text(U, |T.refs|) == rest && (forall i :: 0 <= i < |T.refs| ==> Text(U, i) == Text(T, i))
      && (Coded(a, T.tail) && Coded(a, rest) ==> Coded(a, U.tail))
  {
    var U := WithText(T, rest);
    assert rest != [] ==> U.tail[|T.tail|..|T.tail| + |rest|] == rest;
    forall i | 0 <= i < |T.refs| ensures Text(U, i) == Text(T, i) {
      var r := T.refs[i];
      assert U.refs[i] == r && r.offset + r.size <= |T.tail|;
      assert U.tail[r.offset..r.offset + r.size] == T.tail[r.offset..r.offset + r.size];
    }
  }

  datatype Halt = Halt(cell: int, rest: Str)

  /** Where the walk over internal children stops, and what is left to read there. */
  function Stop(a: Alphabet, t: seq<Cell>, q: int, s: Str): Halt
    decreases |s|
  {
    if s == [] then Halt(q, [])
    else
      var p := Slot(a, t, q, s[0]);
      if At(t, p).check == q && !Leaf(t, p) then Stop(a, t, p, s[1..]) else Halt(q, s)
  }

  /** The slot where the string goes on. */
  function StopSlot(a: Alphabet, t: seq<Cell>, s: Str): int {
    var h := Stop(a, t, 0, s); Slot(a, t, h.cell, Next(a, h.rest))
  }

  ghost predicate Put(t: seq<Cell>, t': seq<Cell>, pos: int, c: Cell) {
    |t| <= |t'| && 0 <= pos < |t'| && forall x {:trigger At(t', x)} :: At(t', x) == if x == pos then c else At(t, x)
  }

  /** A new leaf in the slot `pos` of `q`, after a relocation if the slot is in use. */
  ghost predicate PlacedTo(a: Alphabet, T: Table, q: int, pos: int, rest: Str, T': Table) {
    && T'.tail == WithText(T, rest).tail && T'.refs == WithText(T, rest).refs
    && if !Used(T.cells, pos) then Put(T.cells, T'.cells, pos, Cell(-|T'.refs|, q))
       else
         var nChar, nb := pos - At(T.cells, q).base, At(T'.cells, q).base;
         && NewBase(a, T.cells, q, nChar, nb) && |T.cells| <= |T'.cells| && nb + nChar < |T'.cells|
         && RelocatedTo(a, T.cells, T'.cells, q, nChar, nb, -|T'.refs|)
  }

  ghost predicate LeastVacant(t: seq<Cell>, from: int, n: int) {
    from <= n && !Used(t, n) && forall x :: from <= x < n ==> Used(t, x)
  }

  ghost predicate IsLeaf(T: Table, p: int) { 0 <= p < |T.cells| && 0 <= -1 - T.cells[p].base < |T.refs| }

  /** The leaf `p` has handed its entry down to `n`; `t` is the array grown for it. */
  ghost predicate Pushed(a: Alphabet, T: Table, p: int, t: seq<Cell>, n: int, T': Table) {
    && IsLeaf(T, p) && Extends(T.cells, t) && p < |t| && t[p] == T.cells[p] && 0 <= n < |t|
    && var r := T.refs[-1 - T.cells[p].base];
    && r.size > 0 && r.offset < |T.tail| && LeastVacant(T.cells, T.tail[r.offset] - a.off, n)
    && T' == PushedDown(a, T.(cells := t), p, n, T.tail[r.offset])
  }

  /** `k` hand-downs lead from the leaf `p0` of `T0` to the leaf `p` of `T`. */
  ghost predicate ChainTo(a: Alphabet, T0: Table, p0: int, k: nat, T: Table, p: int) {
    if k == 0 then T == T0 && p == p0
    else exists Tm, pm, t {:trigger Pushed(a, Tm, pm, t, p, T)} :: ChainTo(a, T0, p0, k - 1, Tm, pm) && Pushed(a, Tm, pm, t, p, T)
  }

  /** The first character of entry `i`, or the terminator. */
  function HeadOf(a: Alphabet, T: Table, i: int): int {
    if 0 <= i < |T.refs| && T.refs[i].size != 0 && T.refs[i].offset < |T.tail| then T.tail[T.refs[i].offset] else a.term
  }

  /** The least base under which both codes fall on vacant cells. */
  ghost predicate LeastPair(t: seq<Cell>, lo: int, hi: int, b: int) {
    && b >= 0 && !Used(t, b + lo) && !Used(t, b + hi)
    && forall p {:trigger PairTaken(t, p, lo, hi)} :: lo <= p < b + lo ==> PairTaken(t, p, lo, hi)
  }

  /** The leaf `p` has become the parent of its own entry and of the new entry `i` under character `oc`. */
  ghost predicate SplitTo(a: Alphabet, T: Table, p: int, oc: int, i: int, t: seq<Cell>, b: int, T': Table) {
    && IsLeaf(T, p) && Extends(T.cells, t) && p < |t| && t[p] == T.cells[p]
    && var cc := HeadOf(a, T, -1 - T.cells[p].base);
    && LeastPair(T.cells, (if cc < oc then cc else oc) - a.off, (if cc < oc then oc else cc) - a.off, b)
    && 0 <= b + (cc - a.off) < |t| && 0 <= b + (oc - a.off) < |t| && T' == Split(a, T.(cells := t), p, b, cc, oc, i)
  }

  ghost predicate Unrolled(a: Alphabet, T: Table, p: int, count: nat, oc: int, i: int, T': Table) {
    exists T1, p1, t, b {:trigger SplitTo(a, T1, p1, oc, i, t, b, T')} :: ChainTo(a, T, p, count, T1, p1) && SplitTo(a, T1, p1, oc, i, t, b, T')
  }

  /** How many characters two texts share. */
  function Shared(text: Str, rest: Str): (n: nat)
    ensures n <= |text| && n <= |rest|
  {
    if text == [] || rest == [] || text[0] != rest[0] then 0 else 1 + Shared(text[1..], rest[1..])
  }

  /** A string whose walk ended at the leaf `p` with `rest` to read has joined it. */
  ghost predicate JoinedTo(a: Alphabet, T: Table, p: int, rest: Str, T': Table) {
    var count := Shared(Text(T, -1 - At(T.cells, p).base), rest);
    Unrolled(a, WithText(T, Rest(rest, count + 1)), p, count, Next(a, rest[count..]), |T.refs|, T')
  }

  /** The table after append. */
  ghost predicate AppendedTo(a: Alphabet, T: Table, s: Str, T': Table) {
    var h, pos := Stop(a, T.cells, 0, s), StopSlot(a, T.cells, s);
    if At(T.cells, pos).check != h.cell then PlacedTo(a, T, h.cell, pos, Rest(h.rest, 1), T')
    else if h.rest == [] then T' == T
    else JoinedTo(a, T, pos, h.rest[1..], T')
  }

  /** Appending `s` relocates children of which the scan misses some. */
  ghost predicate Strands(a: Alphabet, t: seq<Cell>, s: Str) {
    var q, pos := Stop(a, t, 0, s).cell, StopSlot(a, t, s);
    Used(t, pos) && At(t, pos).check != q && !AllSeen(a, t, q, pos - At(t, q).base)
  }

  // ---------------------------------------------------------------- every step stays inside the arrays

  lemma TextSound(a: Alphabet, T: Table, rest: Str)
    requires Sound(a, T) && Coded(a, rest)
    ensures Sound(a, WithText(T, rest))
  {
    WithTextFacts(a, T, rest);
    forall p {:trigger Leaf(T.cells, p)} | Leaf(T.cells, p) ensures -At(T.cells, p).base <= |T.refs| + 1 { }
  }

  lemma LeafIsLeaf(a: Alphabet, T: Table, p: int)
    requires Sound(a, T) && Leaf(T.cells, p)
    ensures IsLeaf(T, p) && RefsOk(T)
  {
  }

  lemma LeastInOld(t: seq<Cell>, u: seq<Cell>, from: int, n: int)
    requires Extends(t, u) && from <= n && !Used(u, n) && forall x :: from <= x < n ==> Used(u, x)
    ensures LeastVacant(t, from, n)
  {
    assert forall x :: Used(u, x) == Used(t, x);
  }

  lemma LeastPairInOld(t: seq<Cell>, u: seq<Cell>, lo: int, hi: int, b: int)
    requires Extends(t, u) && b >= 0 && !Used(u, b + lo) && !Used(u, b + hi)
    requires forall p {:trigger PairTaken(t, p, lo, hi)} :: lo <= p < b + lo ==> PairTaken(t, p, lo, hi)
    ensures LeastPair(t, lo, hi, b)
  {
    assert Used(u, b + lo) == Used(t, b + lo) && Used(u, b + hi) == Used(t, b + hi);
  }

  /** Cells that are either as before, or new with a parent elsewhere and a base that is fine, are sound. */
  ghost predicate CellFine(t: seq<Cell>, t': seq<Cell>, n: nat, x: int) {
    -At(t', x).base <= n && (x != 0 && Used(t', x) ==> At(t', x).check != x)
  }

  lemma CellsSound(a: Alphabet, T: Table, T': Table)
    requires Sound(a, T) && RefsOk(T') && Coded(a, T'.tail) && |T'.cells| > 0 && At(T'.cells, 0).check == 0 && !Leaf(T'.cells, 0)
    requires forall x {:trigger CellFine(T.cells, T'.cells, |T'.refs|, x)} :: CellFine(T.cells, T'.cells, |T'.refs|, x)
    ensures Sound(a, T')
  {
    forall p {:trigger Leaf(T'.cells, p)} | Leaf(T'.cells, p) ensures -At(T'.cells, p).base <= |T'.refs| {
      assert CellFine(T.cells, T'.cells, |T'.refs|, p);
    }
    forall x {:trigger Used(T'.cells, x)} | x != 0 && Used(T'.cells, x) ensures At(T'.cells, x).check != x {
      assert CellFine(T.cells, T'.cells, |T'.refs|, x);
    }
  }

  lemma SoundCell(a: Alphabet, T: Table, x: int)
    requires Sound(a, T)
    ensures CellFine(T.cells, T.cells, |T.refs|, x)
  {
    assert Leaf(T.cells, x) || At(T.cells, x).base >= 0;
    assert Used(T.cells, x) || !Used(T.cells, x);
  }

  lemma PushedSound(a: Alphabet, T: Table, p: int, t: seq<Cell>, n: int, T': Table)
    requires Sound(a, T) && p > 0 && Used(T.cells, p) && Pushed(a, T, p, t, n, T')
    ensures Sound(a, T') && n > 0 && IsLeaf(T', n) && Used(T'.cells, n) && T'.cells[n].base == T.cells[p].base
  {
    var U, ch := T.(cells := t), T.tail[T.refs[-1 - T.cells[p].base].offset];
    assert ch in T.tail && At(t, n) == At(T.cells, n) && n != p;
    forall x ensures CellFine(T.cells, T'.cells, |T'.refs|, x) {
      PushedAt(a, U, p, n, ch, x);
      SoundCell(a, T, x);
      SoundCell(a, T, p);
      assert At(t, x) == At(T.cells, x);
    }
    PushedAt(a, U, p, n, ch, 0);
    assert At(t, 0) == At(T.cells, 0) && Used(T.cells, 0);
    CellsSound(a, T, T');
    PushedAt(a, U, p, n, ch, n);
  }

  lemma SplitAt(a: Alphabet, T: Table, p: int, b: int, cc: int, oc: int, i: int, x: int)
    requires 0 <= p < |T.cells| && 0 <= -1 - T.cells[p].base < |T.refs|
    requires 0 <= b + (cc - a.off) < |T.cells| && 0 <= b + (oc - a.off) < |T.cells|
    requires b + (cc - a.off) != p && b + (oc - a.off) != p
    ensures At(Split(a, T, p, b, cc, oc, i).cells, x) ==
      if x == p then Cell(b, At(T.cells, p).check)
      else if x == b + (cc - a.off) then Cell(T.cells[p].base, p) else if x == b + (oc - a.off) then Cell(-1 - i, p) else At(T.cells, x)
  {
  }

  lemma SplitSound(a: Alphabet, T: Table, p: int, oc: int, i: int, t: seq<Cell>, b: int, T': Table)
    requires Sound(a, T) && p > 0 && Used(T.cells, p) && a.HasCode(oc) && 0 <= i < |T.refs| && SplitTo(a, T, p, oc, i, t, b, T')
    ensures Sound(a, T')
  {
    var U, cc := T.(cells := t), HeadOf(a, T, -1 - T.cells[p].base);
    SplitRefs(a, T, p, oc, i, t, b, T');
    HeadCoded(a, T, -1 - T.cells[p].base);
    forall x ensures CellFine(T.cells, T'.cells, |T'.refs|, x) {
      SplitAt(a, U, p, b, cc, oc, i, x);
      SoundCell(a, T, x);
      SoundCell(a, T, p);
      assert At(t, x) == At(T.cells, x) && At(t, p) == At(T.cells, p);
    }
    SplitAt(a, U, p, b, cc, oc, i, 0);
    assert At(t, 0) == At(T.cells, 0) && Used(T.cells, 0);
    CellsSound(a, T, T');
  }

  lemma HeadCoded(a: Alphabet, T: Table, i: int)
    requires a.Valid() && Coded(a, T.tail)
    ensures a.HasCode(HeadOf(a, T, i))
  {
  }

  lemma SplitRefs(a: Alphabet, T: Table, p: int, oc: int, i: int, t: seq<Cell>, b: int, T': Table)
    requires RefsOk(T) && SplitTo(a, T, p, oc, i, t, b, T')
    ensures RefsOk(T') && T'.tail == T.tail && |T'.refs| == |T.refs|
  {
  }

  lemma PlacedSound(a: Alphabet, T: Table, q: int, pos: int, rest: Str, T': Table)
    requires Sound(a, T) && Coded(a, rest) && Used(T.cells, q) && At(T.cells, q).base >= 0 && pos - At(T.cells, q).base >= 1
    requires At(T.cells, pos).check != q && PlacedTo(a, T, q, pos, rest, T')
    ensures Sound(a, T')
  {
    WithTextFacts(a, T, rest);
    SoundCell(a, T, 0);
    forall x ensures CellFine(T.cells, T'.cells, |T'.refs|, x) && (x == 0 ==> At(T'.cells, 0).check == 0 && At(T'.cells, 0).base >= 0) {
      if Used(T.cells, pos) {
        MovedFine(a, T, q, pos, T', x);
      } else {
        SoundCell(a, T, x);
        assert Used(T.cells, 0);
      }
    }
    assert CellFine(T.cells, T'.cells, |T'.refs|, 0);
    CellsSound(a, T, T');
  }

  lemma MovedFine(a: Alphabet, T: Table, q: int, pos: int, T': Table, x: int)
    requires Sound(a, T) && Used(T.cells, q) && At(T.cells, q).base >= 0 && pos - At(T.cells, q).base >= 1
    requires var nChar, nb := pos - At(T.cells, q).base, At(T'.cells, q).base;
      NewBase(a, T.cells, q, nChar, nb) && RelocatedTo(a, T.cells, T'.cells, q, nChar, nb, -|T'.refs|)
    requires |T'.refs| > |T.refs|
    ensures CellFine(T.cells, T'.cells, |T'.refs|, x) && (x == 0 ==> At(T'.cells, 0).check == 0 && At(T'.cells, 0).base >= 0)
  {
    var b, nChar, nb := At(T.cells, q).base, pos - At(T.cells, q).base, At(T'.cells, q).base;
    var D := Seen(a, T.cells, q, nChar);
    var y := At(T.cells, x).check;
    assert RelocatedAt(a, T.cells, T'.cells, q, nChar, nb, -|T'.refs|, x) && Used(T.cells, 0);
    assert MayMove(a, T.cells, q, nb, x - nb) || x - nb !in D;
    assert MayMove(a, T.cells, q, nb, y - b) || y - b !in D;
    assert MayMove(a, T.cells, q, nb, q - b) || q - b !in D;
    SoundCell(a, T, x);
    SoundCell(a, T, b + (x - nb));
    SoundCell(a, T, q);
  }

  lemma NoChain(a: Alphabet, T: Table, p: int)
    ensures ChainTo(a, T, p, 0, T, p)
  {
  }

  lemma ChainOn(a: Alphabet, T0: Table, p0: int, k: nat, Tm: Table, pm: int, t: seq<Cell>, p: int, T: Table)
    requires ChainTo(a, T0, p0, k, Tm, pm) && Pushed(a, Tm, pm, t, p, T)
    ensures ChainTo(a, T0, p0, k + 1, T, p)
  {
    hide Pushed;
  }

  // ---------------------------------------------------------------- what they keep

  /** On a well-formed table the walk stops at a cell on the way to the string. */
  lemma {:induction false} StopFacts(a: Alphabet, T: Table, sh: Shape, q: int, s: Str, k: nat)
    requires WellFormed(a, T, sh) && a.Legal(s) && q in sh.path && !Leaf(T.cells, q) && k <= |s| && sh.path[q] == s[..k]
    ensures var h := Stop(a, T.cells, q, s[k..]);
      && h.cell in sh.path && !Leaf(T.cells, h.cell) && sh.path[h.cell] <= s && s[|sh.path[h.cell]|..] == h.rest
      && var p := Slot(a, T.cells, h.cell, Next(a, h.rest));
         At(T.cells, p).check == h.cell ==> p in sh.path && p != 0 && Leaf(T.cells, p) && sh.path[p] == sh.path[h.cell] + [Next(a, h.rest)]
    decreases |s| - k
  {
    hide WellFormed, At, Leaf;
    ReadOne(s, k);
    WellFormedTree(a, T, sh);
    RootCharIsNone(a, T, sh);
    LegalNext(a, s, k);
    assert Next(a, s[k..]) == (s + [a.term])[k];
    var p := Slot(a, T.cells, q, Next(a, s[k..]));
    if At(T.cells, p).check == q {
      NextIsChild(a, T, sh, q, Next(a, s[k..]));
      if k < |s| && !Leaf(T.cells, p) {
        StopFacts(a, T, sh, p, s, k + 1);
      } else if k == |s| {
        TermChild(a, T, sh, q, s);
      }
    }
  }

  /** What is known at the slot where a string is not yet: the string is new there. */
  lemma NewThere(a: Alphabet, T: Table, sh: Shape, q: int, s: Str, rest: Str)
    requires WellFormed(a, T, sh) && a.Legal(s) && q in sh.path && !Leaf(T.cells, q) && sh.path[q] <= s && s[|sh.path[q]|..] == rest
    requires At(T.cells, Slot(a, T.cells, q, Next(a, rest))).check != q
    ensures WellFormed(a, WithText(T, Rest(rest, 1)), sh)
    ensures NewKey(a, WithText(T, Rest(rest, 1)), sh, q, Next(a, rest), s, |T.refs|)
  {
    var k, U := |sh.path[q]|, WithText(T, Rest(rest, 1));
    ReadOne(s, k);
    RefsAreOk(a, T, sh);
    WithTextFacts(a, T, Rest(rest, 1));
    NewTextKeeps(a, T, U, sh);
    FreshNumber(a, T, sh);
    NoChildNoKey(a, T, sh, q, s);
    LegalNext(a, s, k);
    PathStep(sh.path[q], s, a.term);
    hide WellFormed, At, Text;
  }

  lemma RefsAreOk(a: Alphabet, T: Table, sh: Shape)
    requires WellFormed(a, T, sh)
    ensures RefsOk(T) && a.Valid()
  {
  }

  /** The array before the new cell is written, grown as far. */
  lemma PutBack(t: seq<Cell>, t': seq<Cell>, pos: int, c: Cell) returns (u: seq<Cell>)
    requires Put(t, t', pos, c)
    ensures Extends(t, u) && 0 <= pos < |u| && t' == u[pos := c]
  {
    u := t'[pos := At(t, pos)];
    AtUpdate(t', pos, At(t, pos));
    assert At(t', pos) == t'[pos];
    forall x ensures At(u, x) == At(t, x) { assert x != pos ==> At(t', x) == At(t, x); }
  }

  lemma SameAt(t: seq<Cell>, u: seq<Cell>, x: int)
    requires Extends(t, u)
    ensures At(u, x) == At(t, x) && (Used(u, x) <==> Used(t, x)) && (Leaf(u, x) <==> Leaf(t, x))
  {
  }

  lemma NewKeyThere(a: Alphabet, T: Table, t: seq<Cell>, sh: Shape, q: int, ch: int, s: Str, i: int)
    requires q in sh.path && NewKey(a, T, sh, q, ch, s, i)
    ensures NewKey(a, T.(cells := t), sh, q, ch, s, i)
  {
    SameTexts(T, t, i);
    hide Text, Rest;
  }

  /** A leaf in a vacant slot. */
  lemma HungKeeps(a: Alphabet, T: Table, sh: Shape, q: int, ch: int, s: Str, T': Table)
    requires WellFormed(a, T, sh) && q in sh.path && !Leaf(T.cells, q) && |T.refs| > 0
    requires NewKey(a, T, sh, q, ch, s, |T.refs| - 1)
    requires var pos := Slot(a, T.cells, q, ch);
      && !Used(T.cells, pos) && Put(T.cells, T'.cells, pos, Cell(-|T.refs|, q)) && T'.tail == T.tail && T'.refs == T.refs
    ensures WellFormed(a, T', WithLeaf(sh, Slot(a, T.cells, q, ch), sh.path[q] + [ch], s, |T.refs| - 1))
  {
    hide WellFormed, NewKey;
    var pos := Slot(a, T.cells, q, ch);
    var t := PutBack(T.cells, T'.cells, pos, Cell(-|T.refs|, q));
    hide Put, At, Leaf, Used, Extends;
    ExtendKeeps(a, T, sh, t);
    SameAt(T.cells, t, q);
    SameAt(T.cells, t, pos);
    NewKeyThere(a, T, t, sh, q, ch, s, |T.refs| - 1);
    JoinLeaf(a, T.(cells := t), sh, q, ch, pos, s, |T.refs| - 1, T');
  }

  /** A leaf that joins relocated children, all of them seen. */
  lemma MovedInKeeps(a: Alphabet, U: Table, sh: Shape, q: int, ch: int, s: Str, nb: int, T': Table) returns (sh': Shape)
    requires WellFormed(a, U, sh) && q in sh.path && !Leaf(U.cells, q) && |U.refs| > 0 && NewKey(a, U, sh, q, ch, s, |U.refs| - 1)
    requires !ChildCode(a, U.cells, q, ch - a.off) && AllSeen(a, U.cells, q, ch - a.off)
    requires NewBase(a, U.cells, q, ch - a.off, nb) && nb + (ch - a.off) < |T'.cells|
    requires RelocatedTo(a, U.cells, T'.cells, q, ch - a.off, nb, -|U.refs|) && T' == U.(cells := T'.cells)
    ensures WellFormed(a, T', sh') && sh'.content == sh.content[s := |U.refs|]
  {
    hide WellFormed, NewKey, NewBase, RelocatedTo, Seen, AllSeen, ChildCode;
    var D, w := Seen(a, U.cells, q, ch - a.off), nb + (ch - a.off);
    RelocationKeeps(a, U, sh, q, ch, nb, D, w, s, |U.refs| - 1, T'.cells);
    sh' := WithLeaf(Renamed(sh, At(U.cells, q).base, nb, D, |T'.cells|), w, sh.path[q] + [ch], s, |U.refs| - 1);
  }

  /** A new leaf stores exactly one more key, if a relocation it takes sees every child. */
  lemma PlacedKeeps(a: Alphabet, T: Table, sh: Shape, q: int, s: Str, rest: Str, T': Table) returns (sh': Shape)
    requires WellFormed(a, T, sh) && a.Legal(s) && q in sh.path && !Leaf(T.cells, q) && sh.path[q] <= s && s[|sh.path[q]|..] == rest
    requires var pos := Slot(a, T.cells, q, Next(a, rest));
      && At(T.cells, pos).check != q && PlacedTo(a, T, q, pos, Rest(rest, 1), T')
      && (Used(T.cells, pos) ==> AllSeen(a, T.cells, q, pos - At(T.cells, q).base))
    ensures WellFormed(a, T', sh') && s !in sh.content && sh'.content == sh.content[s := |T'.refs|]
  {
    hide WellFormed, NewKey, Seen, AllSeen, NewBase, RelocatedTo, At, Rest, Leaf;
    var ch := Next(a, rest);
    var pos, U := Slot(a, T.cells, q, ch), WithText(T, Rest(rest, 1));
    NewThere(a, T, sh, q, s, rest);
    NewIsNew(a, U, sh, q, ch, s, |T.refs|);
    if !Used(T.cells, pos) {
      HungKeeps(a, U, sh, q, ch, s, T');
      sh' := WithLeaf(sh, pos, sh.path[q] + [ch], s, |T.refs|);
    } else {
      sh' := MovedInKeeps(a, U, sh, q, ch, s, At(T'.cells, q).base, T');
    }
  }

  lemma NewIsNew(a: Alphabet, T: Table, sh: Shape, q: int, ch: int, s: Str, i: int)
    requires q in sh.path && NewKey(a, T, sh, q, ch, s, i)
    ensures s !in sh.content && a.HasCode(ch)
  {
  }

  /** What joining needs to know of the leaf it has come to. */
  ghost predicate AtShared(a: Alphabet, T: Table, sh: Shape, p: int, s: Str, count: nat, i: int) {
    && WellFormed(a, T, sh) && p in sh.path && p != 0 && Leaf(T.cells, p) && sh.path[p] <= s
    && SharedPrefix(Text(T, -1 - At(T.cells, p).base), s, |sh.path[p]|, count)
    && FreshLeaf(T, sh, i, s, |sh.path[p]| + count + 1) && i != -1 - At(T.cells, p).base
  }

  lemma {:induction false} ChainKeeps(a: Alphabet, T0: Table, sh0: Shape, p0: int, s: Str, count: nat, i: int, k: nat, T: Table, p: int)
    returns (sh: Shape)
    requires a.Legal(s) && AtShared(a, T0, sh0, p0, s, count, i) && k <= count && ChainTo(a, T0, p0, k, T, p)
    ensures AtShared(a, T, sh, p, s, count - k, i) && sh.content == sh0.content && |T.refs| == |T0.refs|
    ensures p in sh.path && p0 in sh0.path && |sh.path[p]| == |sh0.path[p0]| + k
  {
    hide *;
    if k == 0 {
      sh := sh0;
      NoLink(a, T0, p0, T, p);
      SharedPath(a, T0, sh0, p0, s, count, i);
    } else {
      var Tm, pm, t := LastLink(a, T0, p0, k, T, p);
      var shm := ChainKeeps(a, T0, sh0, p0, s, count, i, k - 1, Tm, pm);
      sh := PushedKeeps(a, Tm, shm, pm, s, count - (k - 1), i, t, p, T);
    }
  }

  lemma SharedPath(a: Alphabet, T: Table, sh: Shape, p: int, s: Str, count: nat, i: int)
    requires AtShared(a, T, sh, p, s, count, i)
    ensures p in sh.path
  {
  }

  lemma NoLink(a: Alphabet, T0: Table, p0: int, T: Table, p: int)
    requires ChainTo(a, T0, p0, 0, T, p)
    ensures T == T0 && p == p0
  {
  }

  lemma LastLink(a: Alphabet, T0: Table, p0: int, k: nat, T: Table, p: int) returns (Tm: Table, pm: int, t: seq<Cell>)
    requires k > 0 && ChainTo(a, T0, p0, k, T, p)
    ensures ChainTo(a, T0, p0, k - 1, Tm, pm) && Pushed(a, Tm, pm, t, p, T)
  {
    hide Pushed;
    Tm, pm, t :| ChainTo(a, T0, p0, k - 1, Tm, pm) && Pushed(a, Tm, pm, t, p, T);
  }

  lemma PushedKeeps(a: Alphabet, T: Table, sh: Shape, p: int, s: Str, count: nat, i: int, t: seq<Cell>, n: int, T': Table)
    returns (sh': Shape)
    requires a.Legal(s) && AtShared(a, T, sh, p, s, count, i) && count > 0 && Pushed(a, T, p, t, n, T')
    ensures AtShared(a, T', sh', n, s, count - 1, i) && sh'.content == sh.content && |T'.refs| == |T.refs|
    ensures n in sh'.path && p in sh.path && |sh'.path[n]| == |sh.path[p]| + 1
  {
    hide WellFormed, Text, FreshLeaf, SharedPrefix, Used;
    var U := T.(cells := t);
    OwnerAhead(a, T, sh, p, s);
    LongerOwner(a, T, sh, p, s, count);
    HeadChar(a, T, sh, p);
    ExtendKeeps(a, T, sh, t);
    assert At(t, p) == T.cells[p];
    CanPushThere(a, T, sh, p, t, n);
    var ch := T.tail[T.refs[-1 - T.cells[p].base].offset];
    PushDownKeeps(a, U, sh, p, n, ch);
    sh' := WithChild(sh, p, n, ch);
    SharedExtends(a, T, U, sh, p, s, count, i);
    PushedAt(a, U, p, n, ch, n);
    PushedRefs(a, U, p, n, ch);
    NewChildPath(sh, p, n, ch);
    VacantIsNew(a, T, sh, n);
    HandedDown(a, U, sh, T', sh', p, n, s, count, i);
  }

  lemma VacantIsNew(a: Alphabet, T: Table, sh: Shape, n: int)
    requires WellFormed(a, T, sh) && !Used(T.cells, n)
    ensures n !in sh.path && n != 0
  {
    assert Used(T.cells, 0);
  }

  lemma LongerOwner(a: Alphabet, T: Table, sh: Shape, p: int, s: Str, count: nat)
    requires p in sh.path && p in sh.owner && sh.path[p] <= sh.owner[p] && count > 0
    requires Text(T, -1 - At(T.cells, p).base) == sh.owner[p][|sh.path[p]|..]
    requires SharedPrefix(Text(T, -1 - At(T.cells, p).base), s, |sh.path[p]|, count)
    ensures |sh.path[p]| < |sh.owner[p]|
  {
  }

  lemma SharedExtends(a: Alphabet, T: Table, U: Table, sh: Shape, p: int, s: Str, count: nat, i: int)
    requires p in sh.path && SharedPrefix(Text(T, -1 - At(T.cells, p).base), s, |sh.path[p]|, count)
    requires FreshLeaf(T, sh, i, s, |sh.path[p]| + count + 1)
    requires Extends(T.cells, U.cells) && U.tail == T.tail && U.refs == T.refs
    ensures SharedPrefix(Text(U, -1 - At(U.cells, p).base), s, |sh.path[p]|, count)
    ensures FreshLeaf(U, sh, i, s, |sh.path[p]| + count + 1)
  {
    hide Text, SharedPrefix, At;
    assert U == T.(cells := U.cells);
    assert At(U.cells, p) == At(T.cells, p);
    SameTexts(T, U.cells, i);
    SameTexts(T, U.cells, -1 - At(T.cells, p).base);
  }

  lemma PushedRefs(a: Alphabet, T: Table, p: int, n: int, ch: int)
    requires IsLeaf(T, p) && 0 <= n < |T.cells|
    ensures var T', cur := PushedDown(a, T, p, n, ch), -1 - T.cells[p].base;
      T'.tail == T.tail && |T'.refs| == |T.refs| && forall j :: 0 <= j < |T.refs| && j != cur ==> T'.refs[j] == T.refs[j]
  {
  }

  lemma NewChildPath(sh: Shape, p: int, n: int, ch: int)
    requires p in sh.path && p in sh.owner && sh.path[p] <= sh.owner[p] && |sh.path[p]| < |sh.owner[p]|
    requires ch == sh.owner[p][|sh.path[p]|]
    ensures var sh' := WithChild(sh, p, n, ch);
      && n in sh'.path && n in sh'.owner && sh'.owner[n] == sh.owner[p] && sh'.path[n] == sh.owner[p][..|sh.path[p]| + 1]
      && |sh'.path[n]| == |sh.path[p]| + 1
  {
  }

  lemma CanPushThere(a: Alphabet, T: Table, sh: Shape, p: int, t: seq<Cell>, n: int)
    requires WellFormed(a, T, sh) && p in sh.path && p != 0 && Leaf(T.cells, p) && p in sh.owner
    requires sh.path[p] <= sh.owner[p] && |sh.path[p]| < |sh.owner[p]| && IsLeaf(T, p) && Extends(T.cells, t) && p < |t| && t[p] == T.cells[p]
    requires var ch := sh.owner[p][|sh.path[p]|]; a.HasCode(ch) && LeastVacant(T.cells, ch - a.off, n) && n < |t|
    ensures CanPush(a, T.(cells := t), sh, p, n, sh.owner[p][|sh.path[p]|])
  {
    assert At(t, n) == At(T.cells, n) && At(t, p) == At(T.cells, p);
  }

  /** The split at the end of the shared part stores the string, unless the leaf's key is the same string. */
  lemma SplitAtKeeps(a: Alphabet, T: Table, sh: Shape, p: int, s: Str, i: int, t: seq<Cell>, b: int, T': Table) returns (sh': Shape)
    requires a.Legal(s) && AtShared(a, T, sh, p, s, 0, i)
    requires SplitTo(a, T, p, (s + [a.term])[|sh.path[p]|], i, t, b, T')
    ensures WellFormed(a, T', sh') && sh'.content == (if s in sh.content then sh.content else sh.content[s := i + 1])
    ensures |T'.refs| == |T.refs|
  {
    hide WellFormed, Text, FreshLeaf, SharedPrefix, Used;
    var U, k, oc := T.(cells := t), |sh.path[p]|, (s + [a.term])[|sh.path[p]|];
    var cc := HeadOf(a, T, -1 - T.cells[p].base);
    OwnerAhead(a, T, sh, p, s);
    TwoChars(a, T, sh, p, s);
    ExtendKeeps(a, T, sh, t);
    SharedExtends(a, T, U, sh, p, s, 0, i);
    SharedNothing(Text(T, -1 - At(T.cells, p).base), sh.owner[p], s, k);
    CharsDiffer(a, sh.owner[p], s, k);
    VacantInBoth(T.cells, t, b + (cc - a.off));
    VacantInBoth(T.cells, t, b + (oc - a.off));
    assert At(t, p) == T.cells[p];
    sh' := SplitKeeps(a, U, sh, p, b, cc, oc, i, s);
  }

  lemma SharedNothing(text: Str, o: Str, s: Str, k: nat)
    requires k <= |o| && text == o[k..] && SharedPrefix(text, s, k, 0)
    ensures SharedPrefix(o[k..], s, k, 0)
  {
  }

  lemma VacantInBoth(t: seq<Cell>, u: seq<Cell>, p: int)
    requires Extends(t, u)
    ensures Used(t, p) <==> Used(u, p)
  {
    assert At(u, p) == At(t, p);
  }

  lemma {:induction false} SharedIsPrefix(text: Str, rest: Str)
    ensures var n := Shared(text, rest);
      text[..n] == rest[..n] && (n < |text| && n < |rest| ==> text[n] != rest[n])
  {
    if text != [] && rest != [] && text[0] == rest[0] {
      var n := Shared(text[1..], rest[1..]);
      SharedIsPrefix(text[1..], rest[1..]);
      assert text[..n + 1] == [text[0]] + text[1..][..n] && rest[..n + 1] == [rest[0]] + rest[1..][..n];
    }
  }

  /** What is shared with the tail is shared with the string. */
  lemma SharedInString(text: Str, s: Str, k: nat, n: nat)
    requires k <= |s| && n == Shared(text, s[k..])
    ensures SharedPrefix(text, s, k, n) && Rest(s[k..], n + 1) == Rest(s, k + n + 1)
  {
    SharedIsPrefix(text, s[k..]);
    assert s[k..][..n] == s[k..k + n];
    if k + n + 1 <= |s| { assert s[k..][n + 1..] == s[k + n + 1..]; }
  }

  /** The leaf a string joins, once the new entry is there. */
  lemma JoinStarts(a: Alphabet, T: Table, sh: Shape, p: int, s: Str, rest: Str)
    requires WellFormed(a, T, sh) && a.Legal(s) && p in sh.path && p != 0 && Leaf(T.cells, p)
    requires sh.path[p] <= s && s[|sh.path[p]|..] == rest
    ensures var count := Shared(Text(T, -1 - At(T.cells, p).base), rest);
      AtShared(a, WithText(T, Rest(rest, count + 1)), sh, p, s, count, |T.refs|)
  {
    hide WellFormed, Text, SharedPrefix;
    var text, k := Text(T, -1 - At(T.cells, p).base), |sh.path[p]|;
    var count := Shared(text, rest);
    var U := WithText(T, Rest(rest, count + 1));
    RefsAreOk(a, T, sh);
    LeafRef(a, T, sh, p);
    FreshNumber(a, T, sh);
    WithTextFacts(a, T, Rest(rest, count + 1));
    NewTextKeeps(a, T, U, sh);
    SharedInString(text, s, k, count);
    hide Rest, At, WithText, Shared;
  }

  /** Joining the leaf on its way stores a string under the next number, unless it is the leaf's. */
  lemma JoinedKeeps(a: Alphabet, T: Table, sh: Shape, p: int, s: Str, rest: Str, T': Table) returns (sh': Shape)
    requires WellFormed(a, T, sh) && a.Legal(s) && p in sh.path && p != 0 && Leaf(T.cells, p)
    requires sh.path[p] <= s && s[|sh.path[p]|..] == rest && JoinedTo(a, T, p, rest, T')
    ensures WellFormed(a, T', sh') && |T'.refs| == |T.refs| + 1
    ensures sh'.content == if s in sh.content then sh.content else sh.content[s := |T'.refs|]
  {
    hide WellFormed, AtShared, Unrolled, Rest, Shared, Text, At, Leaf, Used;
    var count := Shared(Text(T, -1 - At(T.cells, p).base), rest);
    JoinStarts(a, T, sh, p, s, rest);
    NextInString(a, s, |sh.path[p]|, count, rest);
    sh' := UnrolledKeeps(a, WithText(T, Rest(rest, count + 1)), sh, p, s, count, |T.refs|, T');
  }

  lemma UnrolledKeeps(a: Alphabet, T: Table, sh: Shape, p: int, s: Str, count: nat, i: int, T': Table) returns (sh': Shape)
    requires a.Legal(s) && AtShared(a, T, sh, p, s, count, i) && p in sh.path && |sh.path[p]| + count <= |s|
    requires Unrolled(a, T, p, count, (s + [a.term])[|sh.path[p]| + count], i, T')
    ensures WellFormed(a, T', sh') && |T'.refs| == |T.refs|
    ensures sh'.content == if s in sh.content then sh.content else sh.content[s := i + 1]
  {
    hide AtShared, SplitTo, ChainTo;
    var oc := (s + [a.term])[|sh.path[p]| + count];
    var T1, p1, t, b :| ChainTo(a, T, p, count, T1, p1) && SplitTo(a, T1, p1, oc, i, t, b, T');
    hide *;
    var sh1 := ChainKeeps(a, T, sh, p, s, count, i, count, T1, p1);
    sh' := SplitAtKeeps(a, T1, sh1, p1, s, i, t, b, T');
  }

  lemma NextInString(a: Alphabet, s: Str, k: nat, n: nat, rest: Str)
    requires k <= |s| && rest == s[k..] && n <= |rest|
    ensures Next(a, rest[n..]) == (s + [a.term])[k + n]
  {
  }

  /** Append on a well-formed table stores the string under the next number, unless it is stored already, and keeps every
    * other key under its number, unless it strands some. */
  lemma AppendedKeeps(a: Alphabet, T: Table, sh: Shape, s: Str, T': Table) returns (sh': Shape)
    requires WellFormed(a, T, sh) && a.Legal(s) && AppendedTo(a, T, s, T') && !Strands(a, T.cells, s)
    ensures WellFormed(a, T', sh')
    ensures sh'.content == if s in sh.content then sh.content else sh.content[s := |T'.refs|]
    ensures s !in sh.content ==> |T'.refs| == |T.refs| + 1
  {
    hide WellFormed, Stop, PlacedTo, JoinedTo, AllSeen, Used, At, Rest;
    var h, pos := Stop(a, T.cells, 0, s), StopSlot(a, T.cells, s);
    RootFacts(a, T, sh);
    ReadNone(s);
    StopFacts(a, T, sh, 0, s, 0);
    if At(T.cells, pos).check != h.cell {
      PlacedOne(a, T, h.cell, pos, Rest(h.rest, 1), T');
      sh' := PlacedKeeps(a, T, sh, h.cell, s, h.rest, T');
    } else if h.rest == [] {
      sh' := sh;
      WholeIsKey(a, T, sh, h.cell, s);
    } else {
      JoinsAt(a, sh, h.cell, pos, s, h.rest);
      sh' := JoinedKeeps(a, T, sh, pos, s, h.rest[1..], T');
    }
  }

  lemma PlacedOne(a: Alphabet, T: Table, q: int, pos: int, rest: Str, T': Table)
    requires PlacedTo(a, T, q, pos, rest, T')
    ensures |T'.refs| == |T.refs| + 1
  {
  }

  lemma JoinsAt(a: Alphabet, sh: Shape, q: int, p: int, s: Str, rest: Str)
    requires q in sh.path && p in sh.path && sh.path[q] <= s && s[|sh.path[q]|..] == rest != []
    requires sh.path[p] == sh.path[q] + [Next(a, rest)]
    ensures sh.path[p] <= s && s[|sh.path[p]|..] == rest[1..]
  {
    ReadOne(s, |sh.path[q]|);
  }

  lemma WholeIsKey(a: Alphabet, T: Table, sh: Shape, q: int, s: Str)
    requires WellFormed(a, T, sh) && a.Legal(s) && q in sh.path && !Leaf(T.cells, q) && sh.path[q] <= s && s[|sh.path[q]|..] == []
    requires At(T.cells, Slot(a, T.cells, q, a.term)).check == q
    ensures s in sh.content
  {
    LegalNext(a, s, |s|);
    TermChild(a, T, sh, q, s);
  }

  // ---------------------------------------------------------------- what a stranding append loses

  /** The key `k` is on the way through a child that appending `s` leaves behind. */
  ghost predicate StrandedBy(a: Alphabet, t: seq<Cell>, s: Str, k: Str) {
    var h, pos := Stop(a, t, 0, s), StopSlot(a, t, s);
    Strands(a, t, s) && |h.rest| <= |s| && Missed(a, t, s[..|s| - |h.rest|], h.cell, pos - At(t, h.cell).base, k)
  }

  lemma PlacedRelocates(a: Alphabet, T: Table, sh: Shape, q: int, ch: int, rest: Str, T': Table)
    requires WellFormed(a, T, sh) && WellFormed(a, WithText(T, rest), sh) && q in sh.path && !Leaf(T.cells, q) && a.HasCode(ch)
    requires var pos := Slot(a, T.cells, q, ch); Used(T.cells, pos) && At(T.cells, pos).check != q && PlacedTo(a, T, q, pos, rest, T')
    ensures Relocating(a, WithText(T, rest), sh, q, ch - a.off, At(T'.cells, q).base, -|T'.refs|, T'.cells)
    ensures T' == WithText(T, rest).(cells := T'.cells)
  {
  }

  /** An append that strands keys is a relocation under the new entry. */
  lemma StrandsRelocates(a: Alphabet, T: Table, sh: Shape, s: Str, T': Table) returns (q: int, ch: int, U: Table)
    requires WellFormed(a, T, sh) && a.Legal(s) && AppendedTo(a, T, s, T') && Strands(a, T.cells, s)
    ensures U.cells == T.cells && T' == U.(cells := T'.cells) && |U.refs| == |T'.refs| == |T.refs| + 1
    ensures Relocating(a, U, sh, q, ch - a.off, At(T'.cells, q).base, -|T'.refs|, T'.cells) && NewKey(a, U, sh, q, ch, s, |T.refs|)
    ensures !AllSeen(a, T.cells, q, ch - a.off)
    ensures forall k {:trigger StrandedBy(a, T.cells, s, k)} ::
      StrandedBy(a, T.cells, s, k) <==> Missed(a, T.cells, sh.path[q], q, ch - a.off, k)
  {
    hide WellFormed, Stop, Missed, NewBase, RelocatedTo, Seen, AllSeen, At, NewKey;
    var h := Stop(a, T.cells, 0, s);
    q, ch := h.cell, Next(a, h.rest);
    U := WithText(T, Rest(h.rest, 1));
    RootFacts(a, T, sh);
    assert s[0..] == s && s[..0] == [];
    StopFacts(a, T, sh, 0, s, 0);
    NewThere(a, T, sh, q, s, h.rest);
    NewIsNew(a, U, sh, q, ch, s, |T.refs|);
    PlacedRelocates(a, T, sh, q, ch, Rest(h.rest, 1), T');
    assert s[..|s| - |h.rest|] == sh.path[q];
  }

  /** An append that strands keys is one with an offset below 1; it stores its own string, loses at least one key, and
    * keeps exactly those keys whose way leads through no child left behind. */
  lemma AppendedStrands(a: Alphabet, T: Table, sh: Shape, s: Str, T': Table)
    requires WellFormed(a, T, sh) && a.Legal(s) && AppendedTo(a, T, s, T') && Strands(a, T.cells, s)
    ensures a.off < 1 && Search(a, T', s) == |T'.refs| && !FindsAll(a, T', sh.content)
    ensures forall k {:trigger Search(a, T', k)} :: k in sh.content ==> (Search(a, T', k) == sh.content[k] <==> !StrandedBy(a, T.cells, s, k))
  {
    hide *;
    var q, ch, U := StrandsRelocates(a, T, sh, s, T');
    OffsetSees0(a, T.cells, q, ch - a.off);
    NewKeyFound(a, U, sh, q, ch, At(T'.cells, q).base, s, |T.refs|, T'.cells);
    RelocationRightIff(a, U, sh, q, ch - a.off, At(T'.cells, q).base, -|T'.refs|, T'.cells);
    forall k | k in sh.content ensures Search(a, T', k) == sh.content[k] <==> !StrandedBy(a, T.cells, s, k) {
      KeyKeptIff(a, U, sh, q, ch - a.off, At(T'.cells, q).base, -|T'.refs|, T'.cells, k);
    }
  }

  lemma OffsetSees0(a: Alphabet, t: seq<Cell>, q: int, nChar: int)
    ensures a.off >= 1 ==> AllSeen(a, t, q, nChar)
  {
    if a.off >= 1 { OffsetSees(a, t, q, nChar); }
  }

  lemma EmptyTable(a: Alphabet)
    requires a.Valid()
    ensures WellFormed(a, EMPTY, Shape(map[0 := []], map[], map[], map[], map[])) && Sound(a, EMPTY)
  {
    assert forall p :: Used(EMPTY.cells, p) <==> p == 0;
  }
}
