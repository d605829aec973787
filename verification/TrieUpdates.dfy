/** What the steps of an insertion do to a table: moving the children of a cell, splitting a leaf. */
module TrieUpdates {
  import opened DoubleArray

  /** A leaf entry `i` in use by no key, holding what is left of `s` after `k` characters. */
  ghost predicate FreshLeaf(T: Table, sh: Shape, i: int, s: Str, k: nat) {
    0 <= i < |T.refs| && Text(T, i) == Rest(s, k) && forall x :: x in sh.content ==> sh.content[x] != i + 1
  }

  /** The table after leaf `p` has become a parent of its own entry and of the new leaf `i`. */
  function Split(a: Alphabet, T: Table, p: int, b: int, cc: int, oc: int, i: int): Table
    requires 0 <= p < |T.cells| && 0 <= -1 - T.cells[p].base < |T.refs|
    requires 0 <= b + (cc - a.off) < |T.cells| && 0 <= b + (oc - a.off) < |T.cells|
  {
    var cur := -1 - T.cells[p].base;
    var r := T.refs[cur];
    Table(T.cells[b + (oc - a.off) := Cell(-1 - i, p)][b + (cc - a.off) := Cell(-1 - cur, p)][p := Cell(b, T.cells[p].check)],
          T.tail, T.refs[cur := if r.size == 0 then r else TailRef(r.offset + 1, r.size - 1)])
  }

  ghost predicate CanSplit(a: Alphabet, T: Table, sh: Shape, p: int, b: int, cc: int, oc: int, s: Str) {
    && 0 <= b && CanPush(a, T, sh, p, b + (cc - a.off), cc)
    && 0 <= b + (oc - a.off) < |T.cells| && !Used(T.cells, b + (oc - a.off))
    && sh.path[p] <= s && a.Legal(s) && oc == (s + [a.term])[|sh.path[p]|]
    && (cc == oc <==> s == sh.owner[p])
  }

  /** After the hand-down the split key is a new key under the old leaf. */
  lemma SplitNewKey(a: Alphabet, T: Table, sh: Shape, p: int, n: int, w: int, b: int, cc: int, oc: int, i: int, s: Str)
    requires WellFormed(a, T, sh) && CanSplit(a, T, sh, p, b, cc, oc, s) && cc != oc
    requires FreshLeaf(T, sh, i, s, |sh.path[p]| + 1) && n == b + (cc - a.off) && w == b + (oc - a.off)
    ensures var T1, sh1 := PushedDown(a, T, p, n, cc), WithChild(sh, p, n, cc);
      && p in sh1.path && sh1.path[p] == sh.path[p] && sh1.content == sh.content && s !in sh.content
      && NewKey(a, T1, sh1, p, oc, s, i) && !Leaf(T1.cells, p) && p != w && p != n && n != w
      && At(T1.cells, p).base == b && 0 <= w < |T1.cells| && !Used(T1.cells, w)
  {
    LeafEntry(a, T, sh, p);
    assert At(T.cells, p) == T.cells[p];
    hide WellFormed, CellOk, KeyOk, ChildOk, Text, Rest, At, PushedDown;
    LegalNext(a, s, |sh.path[p]|);
    PathStep(sh.path[p], s, a.term);
    LeafDecides(a, T, sh, p, s);
    PushDownOther(a, T, p, n, cc, i);
    PushedAt(a, T, p, n, cc, p);
    PushedAt(a, T, p, n, cc, w);
  }

  lemma LeafEntry(a: Alphabet, T: Table, sh: Shape, p: int)
    requires WellFormed(a, T, sh) && p in sh.path && p != 0 && Leaf(T.cells, p)
    ensures p in sh.owner && sh.owner[p] in sh.content && sh.content[sh.owner[p]] == -At(T.cells, p).base
    ensures Used(T.cells, p) && a.Valid()
  {
    CellFacts(a, T, sh, p);
  }

  lemma LegalNext(a: Alphabet, s: Str, k: nat)
    requires a.Valid() && a.Legal(s) && k <= |s|
    ensures a.HasCode((s + [a.term])[k]) && a.term !in s
  {
    if k < |s| { assert s[k] in s; }
  }

  lemma SameSplit(a: Alphabet, T: Table, sh: Shape, p: int, b: int, cc: int, oc: int, s: Str)
    requires WellFormed(a, T, sh) && CanSplit(a, T, sh, p, b, cc, oc, s) && cc == oc
    ensures s in sh.content && p != b + (cc - a.off)
  {
    assert CellOk(a, T, sh, p) && Used(T.cells, p);
  }

  lemma SplitKeeps(a: Alphabet, T: Table, sh: Shape, p: int, b: int, cc: int, oc: int, i: int, s: Str) returns (sh': Shape)
    requires WellFormed(a, T, sh) && CanSplit(a, T, sh, p, b, cc, oc, s)
    requires FreshLeaf(T, sh, i, s, |sh.path[p]| + 1)
    ensures WellFormed(a, Split(a, T, p, b, cc, oc, i), sh')
    ensures sh'.content == if s in sh.content then sh.content else sh.content[s := i + 1]
  {
    hide WellFormed, Split, PushedDown, FreshLeaf, NewKey, Used, Leaf;
    var n, w := b + (cc - a.off), b + (oc - a.off);
    PushDownKeeps(a, T, sh, p, n, cc);
    sh' := WithChild(sh, p, n, cc);
    if cc == oc {
      SameSplit(a, T, sh, p, b, cc, oc, s);
      SplitParts(a, T, p, b, cc, oc, i);
    } else {
      SplitNewKey(a, T, sh, p, n, w, b, cc, oc, i, s);
      SplitParts(a, T, p, b, cc, oc, i);
      JoinLeaf(a, PushedDown(a, T, p, n, cc), sh', p, oc, w, s, i, Split(a, T, p, b, cc, oc, i));
      sh' := WithLeaf(sh', w, sh'.path[p] + [oc], s, i);
    }
  }

  /** A split is the hand-down, then the new leaf. */
  lemma SplitParts(a: Alphabet, T: Table, p: int, b: int, cc: int, oc: int, i: int)
    requires 0 <= p < |T.cells| && 0 <= -1 - T.cells[p].base < |T.refs| && p != b + (oc - a.off) && p != b + (cc - a.off)
    requires 0 <= b + (cc - a.off) < |T.cells| && 0 <= b + (oc - a.off) < |T.cells|
    ensures var n, w, S := b + (cc - a.off), b + (oc - a.off), Split(a, T, p, b, cc, oc, i);
      var T1 := PushedDown(a, T, p, n, cc);
      S == if cc == oc then T1 else T1.(cells := T1.cells[w := Cell(-1 - i, p)])
  {
  }

  lemma JoinLeaf(a: Alphabet, T: Table, sh: Shape, q: int, ch: int, w: int, s: Str, i: int, T': Table)
    requires WellFormed(a, T, sh) && q in sh.path && !Leaf(T.cells, q) && NewKey(a, T, sh, q, ch, s, i)
    requires w == Slot(a, T.cells, q, ch) && 0 <= w < |T.cells| && !Used(T.cells, w)
    requires T' == T.(cells := T.cells[w := Cell(-1 - i, q)])
    ensures WellFormed(a, T', WithLeaf(sh, w, sh.path[q] + [ch], s, i))
  {
    AddLeafKeeps(a, T, sh, q, ch, s, i);
  }

  /** A leaf short of its key's end starts with the key's next character. */
  lemma HeadChar(a: Alphabet, T: Table, sh: Shape, p: int)
    requires WellFormed(a, T, sh) && p in sh.path && p != 0 && Leaf(T.cells, p)
    requires p in sh.owner && |sh.path[p]| < |sh.owner[p]|
    ensures 0 <= p < |T.cells| && 0 <= -1 - T.cells[p].base < |T.refs|
    ensures var r, ch := T.refs[-1 - T.cells[p].base], sh.owner[p][|sh.path[p]|];
      r.size > 0 && r.offset < |T.tail| && T.tail[r.offset] == ch && a.HasCode(ch)
    ensures sh.path[p] <= sh.owner[p]
  {
    var o, k := sh.owner[p], |sh.path[p]|;
    assert CellOk(a, T, sh, p) && KeyOk(a, T, sh, o) && Used(T.cells, p);
    var r := T.refs[-1 - T.cells[p].base];
    var w := T.tail[r.offset..r.offset + r.size];
    assert w == o[k..];
    assert w[0] == o[k] && o[k] in o;
  }

  predicate PairTaken(t: seq<Cell>, p: int, lo: int, hi: int) { Used(t, p) || Used(t, p + hi - lo) }

  /** What a relocation of the children of `q` leaves at cell `x`. */
  ghost function RelocatedCell(a: Alphabet, t: seq<Cell>, q: int, nChar: int, nb: int, leaf: int, x: int): Cell {
    var moved := MovedCell(a, t, At(t, q).base, nb, Seen(a, t, q, nChar), x);
    if x == q then Cell(nb, moved.check) else if x == nb + nChar then Cell(leaf, q) else moved
  }

  ghost predicate RelocatedAt(a: Alphabet, t: seq<Cell>, t': seq<Cell>, q: int, nChar: int, nb: int, leaf: int, x: int) {
    At(t', x) == RelocatedCell(a, t, q, nChar, nb, leaf, x)
  }

  ghost predicate RelocatedTo(a: Alphabet, t: seq<Cell>, t': seq<Cell>, q: int, nChar: int, nb: int, leaf: int) {
    forall x {:trigger RelocatedAt(a, t, t', q, nChar, nb, leaf, x)} :: RelocatedAt(a, t, t', q, nChar, nb, leaf, x)
  }

  /** The base a relocation chooses: the least one that is free for the seen children and the new one. */
  ghost predicate NewBase(a: Alphabet, t: seq<Cell>, q: int, nChar: int, nb: int) {
    && nb >= 0 && !Used(t, nb + nChar)
    && (forall c {:trigger MayMove(a, t, q, nb, c)} :: c in Seen(a, t, q, nChar) ==> MayMove(a, t, q, nb, c))
    && (forall b {:trigger Taken(a, t, q, nChar, b)} :: 0 <= b < nb ==> Taken(a, t, q, nChar, b))
  }

  ghost predicate Taken(a: Alphabet, t: seq<Cell>, q: int, nChar: int, b: int) {
    Used(t, b + nChar) || exists c :: c in Seen(a, t, q, nChar) && Used(t, b + c)
  }

  lemma RelocationDone(a: Alphabet, t: seq<Cell>, u: seq<Cell>, q: int, nChar: int, nb: int, leaf: int)
    requires 0 <= q < |u| && q != nb + nChar
    requires var D := Seen(a, t, q, nChar);
      forall x :: x != nb + nChar ==> At(u, x) == MovedCell(a, t, At(t, q).base, nb, D, x)
    requires At(u, nb + nChar) == Cell(leaf, q)
    ensures forall x :: At(u[q := Cell(nb, u[q].check)], x) == RelocatedCell(a, t, q, nChar, nb, leaf, x)
  {
    hide MovedCell, Seen;
    assert At(u, q) == u[q];
  }

  /** The scan meets every child of `q`. */
  ghost predicate AllSeen(a: Alphabet, t: seq<Cell>, q: int, nChar: int) {
    forall c {:trigger ChildCode(a, t, q, c)} :: ChildCode(a, t, q, c) ==> c < nChar || c < a.cnt + a.off
  }

  ghost predicate NewKey(a: Alphabet, T: Table, sh: Shape, q: int, ch: int, s: Str, i: int)
    requires q in sh.path
  {
    && a.HasCode(ch) && sh.path[q] + [ch] <= s + [a.term] && a.Legal(s) && s !in sh.content
    && 0 <= i < |T.refs| && Text(T, i) == Rest(s, |sh.path[q]| + 1)
    && forall x :: x in sh.content ==> sh.content[x] != i + 1
  }

  /** Up to the new leaf, a relocation that saw every child moved exactly the children. */
  lemma RelocationMoves(a: Alphabet, T: Table, sh: Shape, q: int, nChar: int, nb: int, leaf: int, t': seq<Cell>)
    requires WellFormed(a, T, sh) && q in sh.path && !Leaf(T.cells, q) && 1 <= nChar <= a.cnt
    requires !ChildCode(a, T.cells, q, nChar) && AllSeen(a, T.cells, q, nChar)
    requires NewBase(a, T.cells, q, nChar, nb) && nb + nChar < |t'|
    requires RelocatedTo(a, T.cells, t', q, nChar, nb, leaf)
    ensures var D := Seen(a, T.cells, q, nChar);
      CanMove(a, T, sh, q, nb, D) && Relocated(a, T.cells, t'[nb + nChar := At(T.cells, nb + nChar)], q, nb, D)
    ensures q != nb + nChar && t'[nb + nChar] == Cell(leaf, q)
  {
    var t, D, w := T.cells, Seen(a, T.cells, q, nChar), nb + nChar;
    var t1 := t'[w := At(t, w)];
    assert Used(t, q);
    ScanFacts(a, T, sh, q, nChar);
    forall c ensures CodeMoves(a, t, q, nb, D, c) {
      assert ChildCode(a, t, q, c) <==> c in D;
      assert c in D ==> MayMove(a, t, q, nb, c);
    }
    ParentUnmoved(a, T, sh, q, nb, D);
    VacantStays(a, T, sh, q, nb, D, w);
    forall x ensures CellMoved(a, t, t1, q, nb, D, x) {
      assert RelocatedAt(a, t, t', q, nChar, nb, leaf, x);
      assert x != w ==> At(t1, x) == At(t', x);
    }
    assert RelocatedAt(a, t, t', q, nChar, nb, leaf, w);
  }

  lemma RelocatedRoom(a: Alphabet, T: Table, sh: Shape, q: int, nChar: int, nb: int, leaf: int, t': seq<Cell>)
    requires WellFormed(a, T, sh) && q in sh.path && !Leaf(T.cells, q) && 1 <= nChar <= a.cnt
    requires !ChildCode(a, T.cells, q, nChar) && AllSeen(a, T.cells, q, nChar)
    requires NewBase(a, T.cells, q, nChar, nb) && nb + nChar < |t'|
    requires RelocatedTo(a, T.cells, t', q, nChar, nb, leaf)
    ensures var w, b := nb + nChar, At(T.cells, q).base;
      var t1, sh1 := t'[w := At(T.cells, w)], Renamed(sh, b, nb, Seen(a, T.cells, q, nChar), |t'|);
      && WellFormed(a, T.(cells := t1), sh1) && q in sh1.path && sh1.path[q] == sh.path[q] && sh1.content == sh.content
      && At(t1, q).base == nb && !Used(t1, w) && t1[w := Cell(leaf, q)] == t'
  {
    var D, w := Seen(a, T.cells, q, nChar), nb + nChar;
    var t1 := t'[w := At(T.cells, w)];
    RelocationMoves(a, T, sh, q, nChar, nb, leaf, t');
    RelocateKeeps(a, T, sh, q, nb, D, t1);
    assert CellMoved(a, T.cells, t1, q, nb, D, q);
  }

  /** If every child was seen, a relocation stores exactly one more key. */
  lemma RelocationKeeps(a: Alphabet, T: Table, sh: Shape, q: int, ch: int, nb: int, D: set<int>, w: int, s: Str, i: int,
                        t': seq<Cell>)
    requires WellFormed(a, T, sh) && q in sh.path && !Leaf(T.cells, q) && NewKey(a, T, sh, q, ch, s, i)
    requires !ChildCode(a, T.cells, q, ch - a.off) && AllSeen(a, T.cells, q, ch - a.off)
    requires D == Seen(a, T.cells, q, ch - a.off) && w == nb + (ch - a.off)
    requires NewBase(a, T.cells, q, ch - a.off, nb) && w < |t'|
    requires RelocatedTo(a, T.cells, t', q, ch - a.off, nb, -1 - i)
    ensures WellFormed(a, T.(cells := t'),
      WithLeaf(Renamed(sh, At(T.cells, q).base, nb, D, |t'|), w, sh.path[q] + [ch], s, i))
  {
    assert a.HasCode(ch) && nb >= 0;
    hide WellFormed, NewKey, Renamed, WithLeaf, NewBase, RelocatedTo, Seen, AllSeen, ChildCode;
    var t1, sh1 := t'[w := At(T.cells, w)], Renamed(sh, At(T.cells, q).base, nb, D, |t'|);
    RelocatedRoom(a, T, sh, q, ch - a.off, nb, -1 - i, t');
    NewKeyMoves(a, T, T.(cells := t1), sh, sh1, q, ch, s, i);
    JoinLeaf(a, T.(cells := t1), sh1, q, ch, w, s, i, T.(cells := t'));
  }

  lemma NewKeyMoves(a: Alphabet, T: Table, T': Table, sh: Shape, sh': Shape, q: int, ch: int, s: Str, i: int)
    requires q in sh.path && q in sh'.path && sh'.path[q] == sh.path[q] && sh'.content == sh.content
    requires NewKey(a, T, sh, q, ch, s, i) && T'.refs == T.refs && T'.tail == T.tail
    ensures NewKey(a, T', sh', q, ch, s, i)
  {
  }

  lemma AtUpdate(t: seq<Cell>, w: int, c: Cell)
    requires 0 <= w < |t|
    ensures forall x {:trigger At(t[w := c], x)} :: At(t[w := c], x) == if x == w then c else At(t, x)
  {
    var u := t[w := c];
    assert forall x :: 0 <= x < |t| && x != w ==> u[x] == t[x];
  }

  lemma VacantStays(a: Alphabet, T: Table, sh: Shape, q: int, nb: int, D: set<int>, w: int)
    requires WellFormed(a, T, sh) && CanMove(a, T, sh, q, nb, D) && !Used(T.cells, w) && w - nb !in D
    ensures w != q && MovedCell(a, T.cells, At(T.cells, q).base, nb, D, w) == At(T.cells, w)
  {
    var b := At(T.cells, q).base;
    assert Used(T.cells, q);
    if w - b in D { MoveFacts(a, T, sh, q, nb, D, w - b); }
    var y := At(T.cells, w).check;
    if y - b in D { MoveFacts(a, T, sh, q, nb, D, y - b); }
  }

  /** The parent of `q` is none of the children of `q` that move, so the cell of `q` itself is told nothing. */
  lemma ParentUnmoved(a: Alphabet, T: Table, sh: Shape, q: int, nb: int, D: set<int>)
    requires WellFormed(a, T, sh) && CanMove(a, T, sh, q, nb, D)
    ensures MovedCell(a, T.cells, At(T.cells, q).base, nb, D, q) == At(T.cells, q)
  {
    var b := At(T.cells, q).base;
    ParentStays(a, T, sh, q, nb, D);
    var y := At(T.cells, q).check;
    assert q != 0 ==> ChildOk(a, T.cells, sh.path, q);
    if y - b in D { MoveFacts(a, T, sh, q, nb, D, y - b); }
  }

  /** No cell but the root names itself as its parent. */
  ghost predicate NoSelf(t: seq<Cell>) {
    forall x {:trigger Used(t, x)} :: x != 0 && Used(t, x) ==> At(t, x).check != x
  }

  lemma RoomFacts(a: Alphabet, t: seq<Cell>, u: seq<Cell>, q: int, nChar: int, codes: seq<int>, j: int, nb: int)
    requires Extends(t, u) && NoSelf(t) && q >= 0 && At(t, q).base >= 0 && nb >= 0 && 1 <= nChar
    requires Used(t, At(t, q).base + nChar) && At(t, At(t, q).base + nChar).check != q
    requires 0 <= j < |codes| && codes[j] == nChar
    requires forall i :: 0 <= i < |codes| ==> 0 < codes[i] && !Used(u, nb + codes[i]) && (i != j ==> codes[i] in Seen(a, u, q, nChar))
    requires forall c :: c in Seen(a, u, q, nChar) ==> c in codes
    requires Seen(a, u, q, nChar) == Seen(a, t, q, nChar)
    requires forall b {:trigger Blocked(t, codes, b)} :: 0 <= b < nb ==> Blocked(t, codes, b)
    ensures AllMayMove(a, u, q, nb, Seen(a, u, q, nChar)) && NewBase(a, t, q, nChar, nb)
    ensures nChar !in Seen(a, u, q, nChar) && nb + nChar - At(t, q).base !in Seen(a, u, q, nChar)
    ensures forall i :: 0 <= i < |codes| ==> At(u, q).base + codes[i] < |u|
  {
    var D := Seen(a, u, q, nChar);
    if q - At(t, q).base in D {
      assert Used(t, q);
    }
    forall c | c in D ensures MayMove(a, u, q, nb, c) && MayMove(a, t, q, nb, c) {
      assert c in codes;
    }
    forall b | 0 <= b < nb ensures Taken(a, t, q, nChar, b) {
      assert Blocked(t, codes, b);
    }
    forall i | 0 <= i < |codes| ensures At(u, q).base + codes[i] < |u| {
      assert Used(u, At(u, q).base + codes[i]);
    }
  }

  function Elems(s: seq<int>): set<int> { set x | x in s }

  /** Rising codes below c: the members of S there, and n at place j when j is not negative. */
  ghost predicate Collected(codes: seq<int>, S: set<int>, j: int, n: int, c: int) {
    && (forall i, k :: 0 <= i < k < |codes| ==> codes[i] < codes[k])
    && (forall i :: 0 <= i < |codes| ==> 0 < codes[i] < c && (i != j ==> codes[i] in S))
    && (forall d :: d in S && d < c ==> d in codes)
    && (j >= 0 ==> j < |codes| && codes[j] == n)
  }

  lemma CollectNext(codes: seq<int>, S: set<int>, j: int, n: int, c: int)
    requires Collected(codes, S, j, n, c) && c >= 1 && j < |codes|
    ensures Collected(if c in S then codes + [c] else codes, S, j, n, c + 1)
  {
  }

  lemma CollectNew(codes: seq<int>, S: set<int>, n: int)
    requires Collected(codes, S, -1, n, n) && n >= 1 && n !in S
    ensures Collected(codes + [n], S, |codes|, n, n + 1)
  {
  }

  lemma CollectNone(S: set<int>, n: int)
    requires forall d :: d in S ==> d >= 1
    ensures Collected([], S, -1, n, 1)
  {
  }

  lemma CollectedAll(codes: seq<int>, S: set<int>, j: int, n: int, c: int)
    requires Collected(codes, S, j, n, c) && j >= 0 && forall d :: d in S ==> d < c
    ensures j < |codes| && codes[j] == n && 0 < codes[0]
    ensures forall i, k :: 0 <= i < k < |codes| ==> 0 < codes[i] < codes[k]
    ensures (forall i :: 0 <= i < |codes| && i != j ==> codes[i] in S) && forall d :: d in S ==> d in codes
  {
  }

  /** Distinct codes of D, none of them of E, whose cells under both bases are inside the array. */
  ghost predicate MovePlan(codes: seq<int>, D: set<int>, E: set<int>, base: int, nBase: int, size: int) {
    && E <= D && (forall i :: 0 <= i < |codes| ==> codes[i] in D && codes[i] !in E)
    && (forall i, j :: 0 <= i < j < |codes| ==> codes[i] != codes[j])
    && forall i :: 0 <= i < |codes| ==> base + codes[i] < size && nBase + codes[i] < size
  }

  /** The codes before and after the new one. */
  lemma PlansAround(codes: seq<int>, j: nat, D: set<int>, base: int, nBase: int, size: int)
    requires j < |codes| && codes[j] !in D && forall i :: 0 <= i < |codes| && i != j ==> codes[i] in D
    requires forall i, k :: 0 <= i < k < |codes| ==> codes[i] != codes[k]
    requires forall i :: 0 <= i < |codes| ==> base + codes[i] < size && nBase + codes[i] < size
    ensures MovePlan(codes[..j], D, {}, base, nBase, size)
    ensures MovePlan(codes[j + 1..], D, Elems(codes[..j]), base, nBase, size)
  {
    var post := codes[j + 1..];
    forall i | 0 <= i < |post| ensures post[i] == codes[i + j + 1] && post[i] !in Elems(codes[..j]) { }
  }

  lemma NothingMoved(a: Alphabet, t: seq<Cell>, b: int, nb: int)
    ensures forall x :: MovedCell(a, t, b, nb, {}, x) == At(t, x)
  {
  }

  lemma ElemsAround(codes: seq<int>, j: nat, D: set<int>)
    requires j < |codes| && codes[j] !in D && (forall c :: c in D ==> c in codes)
    requires forall i :: 0 <= i < |codes| && i != j ==> codes[i] in D
    ensures Elems(codes[..j]) + Elems(codes[j + 1..]) == D && {} + Elems(codes[..j]) == Elems(codes[..j])
  {
    forall c | c in D ensures c in codes[..j] || c in codes[j + 1..] {
      var i :| 0 <= i < |codes| && codes[i] == c;
      assert i < j ==> codes[..j][i] == c;
      assert i > j ==> codes[j + 1..][i - j - 1] == c;
    }
  }

  /** What the scan of a parent's slots tells: its children have codes of the alphabet, and it meets those below its limit. */
  lemma ScanFacts(a: Alphabet, T: Table, sh: Shape, q: int, nChar: int)
    requires WellFormed(a, T, sh) && q in sh.path && !Leaf(T.cells, q)
    ensures At(T.cells, q).base >= 0 && 0 <= q < |T.cells|
    ensures forall c {:trigger ChildAt(T.cells, q, c)} :: c >= 1 && ChildAt(T.cells, q, c) ==> ChildCode(a, T.cells, q, c)
    ensures forall c {:trigger c in Seen(a, T.cells, q, nChar)} ::
      c in Seen(a, T.cells, q, nChar) <==> ChildCode(a, T.cells, q, c) && (c < nChar || c < a.cnt + a.off)
  {
    var b := At(T.cells, q).base;
    assert Used(T.cells, q);
    forall c {:trigger ChildAt(T.cells, q, c)} | c >= 1 && ChildAt(T.cells, q, c) ensures c <= a.cnt {
      assert Used(T.cells, b + c) && ChildOk(a, T.cells, sh.path, b + c);
    }
  }

  /** What the scan finds at one code. */
  lemma ScanAt(a: Alphabet, t: seq<Cell>, q: int, nChar: int, c: int)
    requires c >= 1 && (c < nChar || c < a.cnt + a.off)
    ensures c in Seen(a, t, q, nChar) <==> At(t, At(t, q).base + c).check == q
  {
    assert ChildAt(t, q, c) <==> At(t, At(t, q).base + c).check == q;
  }

  /** Beyond the limit of the scan there is nothing it could have seen. */
  lemma ScanEnd(a: Alphabet, t: seq<Cell>, q: int, nChar: int, c: int)
    requires q >= 0 && c > nChar && (c >= |t| - At(t, q).base || c >= a.cnt + a.off)
    ensures forall d :: d in Seen(a, t, q, nChar) ==> d < c
  {
    forall d | d in Seen(a, t, q, nChar) ensures d < c { assert ChildAt(t, q, d); }
  }

  lemma SameSeen(a: Alphabet, t: seq<Cell>, u: seq<Cell>, q: int, nChar: int)
    requires Extends(t, u)
    ensures Seen(a, u, q, nChar) == Seen(a, t, q, nChar)
  {
    assert forall c {:trigger ChildAt(t, q, c)} :: ChildAt(u, q, c) == ChildAt(t, q, c);
  }

  /** Growing the array first makes no difference to what a relocation leaves. */
  lemma RelocatedGrown(a: Alphabet, t: seq<Cell>, u: seq<Cell>, t': seq<Cell>, q: int, nChar: int, nb: int, leaf: int)
    requires Extends(t, u) && forall x :: At(t', x) == RelocatedCell(a, u, q, nChar, nb, leaf, x)
    ensures RelocatedTo(a, t, t', q, nChar, nb, leaf)
  {
    SameSeen(a, t, u, q, nChar);
    hide Seen;
    forall x ensures RelocatedAt(a, t, t', q, nChar, nb, leaf, x) {
      assert RelocatedCell(a, u, q, nChar, nb, leaf, x) == RelocatedCell(a, t, q, nChar, nb, leaf, x);
    }
  }

  /** Codes of the children a relocation moves: the scan stops short of `cnt + off`. */
  ghost function Seen(a: Alphabet, t: seq<Cell>, q: int, nChar: int): set<int> {
    set c | 1 <= c < (if nChar > a.cnt + a.off then nChar else a.cnt + a.off) && ChildAt(t, q, c)
  }

  function OneMoved(a: Alphabet, t: seq<Cell>, l: int, n: int, x: int): Cell {
    if x == l then VACANT
    else
      var u := if x == n then At(t, l) else At(t, x);
      if !Leaf(t, l) && 1 <= x - At(t, l).base <= a.cnt && u.check == l then Cell(u.base, n) else u
  }

  ghost predicate MayMove(a: Alphabet, t: seq<Cell>, q: int, nb: int, d: int) {
    d >= 1 && ChildAt(t, q, d) && !Used(t, nb + d)
  }

  ghost predicate AllMayMove(a: Alphabet, t: seq<Cell>, q: int, nb: int, D: set<int>) {
    && At(t, q).base >= 0 && nb >= 0 && q >= 0 && q - At(t, q).base !in D
    && forall d {:trigger MayMove(a, t, q, nb, d)} :: d in D ==> MayMove(a, t, q, nb, d)
  }

  /** Moving child `c` after the children `E` is moving `E + {c}`. */
  lemma MoveStep(a: Alphabet, t: seq<Cell>, q: int, nb: int, D: set<int>, E: set<int>, c: int,
                 u: seq<Cell>, u': seq<Cell>, x: int)
    requires AllMayMove(a, t, q, nb, D) && E <= D && c in D && c !in E
    requires var b := At(t, q).base;
      && At(u, b + c) == MovedCell(a, t, b, nb, E, b + c) && At(u, x) == MovedCell(a, t, b, nb, E, x)
      && At(u', x) == OneMoved(a, u, b + c, nb + c, x)
    ensures At(u', x) == MovedCell(a, t, At(t, q).base, nb, E + {c}, x)
  {
    var b := At(t, q).base;
    var l, n := b + c, nb + c;
    assert MayMove(a, t, q, nb, c);
    assert MayMove(a, t, q, nb, l - nb) || l - nb !in D;
    assert MayMove(a, t, q, nb, n - b) || n - b !in D;
    assert At(u, l) == At(t, l);
    if x != l && x != n {
      assert MayMove(a, t, q, nb, x - nb) || x - nb !in D;
      assert MayMove(a, t, q, nb, x - b) || x - b !in D;
      var y := At(t, x).check;
      assert MayMove(a, t, q, nb, y - b) || y - b !in D;
    }
  }

  ghost predicate Blocked(t: seq<Cell>, codes: seq<int>, b: int) {
    exists i :: 0 <= i < |codes| && Used(t, b + codes[i])
  }

  lemma BlockedBelow(t: seq<Cell>, t': seq<Cell>, codes: seq<int>, lo: int, hi: int)
    requires Extends(t, t') && |codes| > 0
    requires forall p :: lo + codes[0] <= p < hi + codes[0] ==> Used(t', p)
    ensures forall b {:trigger Blocked(t, codes, b)} :: lo <= b < hi ==> Blocked(t, codes, b)
  {
    forall b | lo <= b < hi ensures Blocked(t, codes, b) {
      assert Used(t', b + codes[0]) && Used(t, b + codes[0]);
    }
  }

  function ChildTold(a: Alphabet, t: seq<Cell>, base: int, oldPos: int, newPos: int, x: int): Cell {
    if 1 <= x - base <= a.cnt && At(t, x).check == oldPos then Cell(At(t, x).base, newPos) else At(t, x)
  }

  lemma NewTextKeeps(a: Alphabet, T: Table, T': Table, sh: Shape)
    requires WellFormed(a, T, sh) && T'.cells == T.cells && RefsOk(T') && |T.refs| <= |T'.refs|
    requires forall i :: 0 <= i < |T.refs| ==> Text(T', i) == Text(T, i)
    ensures WellFormed(a, T', sh)
  {
    forall p | p in sh.path && p != 0 ensures CellOk(a, T', sh, p) {
      assert CellOk(a, T, sh, p);
      assert KeyOk(a, T, sh, sh.owner[p]);
    }
    forall s | s in sh.content ensures KeyOk(a, T', sh, s) {
      assert KeyOk(a, T, sh, s);
    }
  }

  /** Exactly `count` characters are shared by a tail and by what is left of `s` after `k` characters. */
  predicate SharedPrefix(text: Str, s: Str, k: nat, count: nat) {
    && count <= |text| && k + count <= |s| && text[..count] == s[k..k + count]
    && (count < |text| && k + count < |s| ==> text[count] != s[k + count])
  }

  lemma EndsInTerm(w: Str, o: Str, term: int)
    requires w <= o + [term]
    ensures |w| <= |o| || term in w
  {
    if |w| > |o| { assert w[|o|] == term; }
  }

  lemma OwnerAhead(a: Alphabet, T: Table, sh: Shape, p: int, s: Str)
    requires WellFormed(a, T, sh) && p in sh.path && p != 0 && Leaf(T.cells, p)
    requires sh.path[p] <= s && a.Legal(s)
    ensures p in sh.owner && sh.path[p] <= sh.owner[p]
    ensures Text(T, -1 - At(T.cells, p).base) == sh.owner[p][|sh.path[p]|..]
    ensures a.Legal(sh.owner[p])
  {
    assert CellOk(a, T, sh, p) && KeyOk(a, T, sh, sh.owner[p]);
    var o, w := sh.owner[p], sh.path[p];
    EndsInTerm(w, o, a.term);
    assert a.term in w ==> a.term in s;
  }

  /** One shared character less, one place further on. */
  lemma OneMoreShared(o: Str, s: Str, k: nat, count: nat)
    requires k < |o| && count > 0 && SharedPrefix(o[k..], s, k, count) && o[..k] <= s
    ensures o[..k + 1] <= s && SharedPrefix(o[k + 1..], s, k + 1, count - 1)
  {
    var text := o[k..];
    assert text[..count][0] == s[k..k + count][0];
    assert o[k] == s[k];
    assert o[k + 1..] == text[1..] && text[1..][..count - 1] == text[..count][1..];
    assert s[k + 1..k + count] == s[k..k + count][1..];
  }

  lemma EntryStays(T: Table, T': Table, i: int)
    requires T'.tail == T.tail && |T'.refs| == |T.refs| && (0 <= i < |T.refs| ==> T'.refs[i] == T.refs[i])
    ensures Text(T', i) == Text(T, i)
  {
  }

  lemma FreshStays(T: Table, T': Table, sh: Shape, sh': Shape, i: int, s: Str, k: nat)
    requires FreshLeaf(T, sh, i, s, k) && |T'.refs| == |T.refs| && Text(T', i) == Text(T, i) && sh'.content == sh.content
    ensures FreshLeaf(T', sh', i, s, k)
  {
  }

  lemma HandedDown(a: Alphabet, T: Table, sh: Shape, T': Table, sh': Shape, p: int, n: int, s: Str, count: nat, i: int)
    requires WellFormed(a, T, sh) && p in sh.path && p != 0 && Leaf(T.cells, p)
    requires WellFormed(a, T', sh') && n in sh'.path && n != 0 && Leaf(T'.cells, n)
    requires sh.path[p] <= s && a.Legal(s) && p in sh.owner && sh.path[p] <= sh.owner[p]
    requires count > 0 && SharedPrefix(Text(T, -1 - At(T.cells, p).base), s, |sh.path[p]|, count)
    requires n in sh'.owner && sh'.owner[n] == sh.owner[p] && |sh.path[p]| < |sh.owner[p]|
    requires sh'.path[n] == sh.owner[p][..|sh.path[p]| + 1]
    requires At(T'.cells, n).base == At(T.cells, p).base && T'.tail == T.tail && |T'.refs| == |T.refs|
    requires sh'.content == sh.content && i != -1 - At(T.cells, p).base
    requires forall j :: 0 <= j < |T.refs| && j != -1 - At(T.cells, p).base ==> T'.refs[j] == T.refs[j]
    requires FreshLeaf(T, sh, i, s, |sh.path[p]| + count + 1)
    ensures sh'.path[n] <= s && |sh'.path[n]| == |sh.path[p]| + 1
    ensures SharedPrefix(Text(T', -1 - At(T'.cells, n).base), s, |sh'.path[n]|, count - 1)
    ensures FreshLeaf(T', sh', i, s, |sh'.path[n]| + (count - 1) + 1)
  {
    hide WellFormed, Text, FreshLeaf;
    var o, k := sh.owner[p], |sh.path[p]|;
    var text, text' := Text(T, -1 - At(T.cells, p).base), Text(T', -1 - At(T'.cells, n).base);
    OwnerAhead(a, T, sh, p, s);
    OneMoreShared(o, s, k, count);
    OwnerAhead(a, T', sh', n, s);
    assert text' == o[k + 1..];
    EntryStays(T, T', i);
    hide At, SharedPrefix;
    FreshStays(T, T', sh, sh', i, s, k + count + 1);
  }

  lemma CharsDiffer(a: Alphabet, o: Str, s: Str, k: nat)
    requires a.Legal(o) && a.Legal(s) && k <= |o| && k <= |s| && o[..k] == s[..k] && SharedPrefix(o[k..], s, k, 0)
    ensures (o + [a.term])[k] == (s + [a.term])[k] <==> s == o
  {
    assert k < |o| ==> o[k] in o && o[k..][0] == o[k];
    assert k < |s| ==> s[k] in s;
    if k == |o| && k == |s| {
      assert o == o[..k] && s == s[..k];
    }
  }

  lemma TwoChars(a: Alphabet, T: Table, sh: Shape, p: int, s: Str)
    requires WellFormed(a, T, sh) && p in sh.path && p != 0 && Leaf(T.cells, p) && p in sh.owner
    requires sh.path[p] <= s && sh.path[p] <= sh.owner[p] && a.Legal(s)
    ensures 0 <= p < |T.cells| && 0 <= -1 - T.cells[p].base < |T.refs|
    ensures var r, k := T.refs[-1 - T.cells[p].base], |sh.path[p]|;
      && r.offset + r.size <= |T.tail|
      && (sh.owner[p] + [a.term])[k] == (if r.size != 0 then T.tail[r.offset] else a.term)
    ensures a.HasCode((sh.owner[p] + [a.term])[|sh.path[p]|]) && a.HasCode((s + [a.term])[|sh.path[p]|])
  {
    var o, k := sh.owner[p], |sh.path[p]|;
    assert CellOk(a, T, sh, p) && KeyOk(a, T, sh, o) && Used(T.cells, p);
    var r := T.refs[-1 - T.cells[p].base];
    var w := T.tail[r.offset..r.offset + r.size];
    assert w == o[k..];
    if r.size != 0 { assert w[0] == o[k] && o[k] in o; }
    if k < |s| { assert s[k] in s; }
  }

  lemma LeafRef(a: Alphabet, T: Table, sh: Shape, p: int)
    requires WellFormed(a, T, sh) && p in sh.path && p != 0 && Leaf(T.cells, p)
    ensures 0 <= p < |T.cells| && 0 <= -1 - T.cells[p].base < |T.refs| && RefsOk(T)
  {
    assert CellOk(a, T, sh, p) && KeyOk(a, T, sh, sh.owner[p]) && Used(T.cells, p);
  }

  /** The number after the last entry is not taken. */
  lemma FreshNumber(a: Alphabet, T: Table, sh: Shape)
    requires WellFormed(a, T, sh)
    ensures forall x :: x in sh.content ==> sh.content[x] != |T.refs| + 1
  {
    forall x | x in sh.content ensures sh.content[x] != |T.refs| + 1 {
      assert KeyOk(a, T, sh, x);
    }
  }

  lemma RootFacts(a: Alphabet, T: Table, sh: Shape)
    requires WellFormed(a, T, sh)
    ensures 0 in sh.path && sh.path[0] == [] && !Leaf(T.cells, 0) && a.Valid()
  {
  }

  /** A terminator child of the cell that spells `s` is the leaf of `s`. */
  lemma TermChild(a: Alphabet, T: Table, sh: Shape, q: int, s: Str)
    requires WellFormed(a, T, sh) && q in sh.path && !Leaf(T.cells, q) && sh.path[q] == s && a.term !in s
    requires At(T.cells, Slot(a, T.cells, q, a.term)).check == q
    ensures var p := Slot(a, T.cells, q, a.term); Leaf(T.cells, p) && s in sh.content && sh.content[s] == -At(T.cells, p).base
    ensures 0 <= Slot(a, T.cells, q, a.term) < |T.cells|
  {
    var p := Slot(a, T.cells, q, a.term);
    assert Used(T.cells, q) && Used(T.cells, p);
    SlotIsChild(a, T.cells, sh.path, q, a.term);
    assert CellOk(a, T, sh, p) && KeyOk(a, T, sh, sh.owner[p]);
    var o := sh.owner[p];
    assert sh.path[p][|s|] == (o + [a.term])[|s|] == a.term;
    assert s == sh.path[p][..|s|] == (o + [a.term])[..|o|] == o;
  }
}
