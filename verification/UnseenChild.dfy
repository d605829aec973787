/** When a relocation is right.  The scan of utils/nomenclate.cpp:166-174 stops short of code `cnt + off`, so
    with an offset of 0 or -1 it can miss a child; the keys below a missed child are then lost. */
module UnseenChild {
  import opened DoubleArray
  import opened TrieUpdates
  import opened TrieSearch

  /** The children of `q` have been repacked under base `nb`, next to a new leaf under code `nChar`. */
  ghost predicate Relocating(a: Alphabet, T: Table, sh: Shape, q: int, nChar: int, nb: int, leaf: int, t': seq<Cell>) {
    && WellFormed(a, T, sh) && q in sh.path && !Leaf(T.cells, q) && 1 <= nChar <= a.cnt
    && Used(T.cells, At(T.cells, q).base + nChar) && !ChildCode(a, T.cells, q, nChar)
    && NewBase(a, T.cells, q, nChar, nb) && nb + nChar < |t'| && RelocatedTo(a, T.cells, t', q, nChar, nb, leaf)
  }

  /** The way to key `k` leads through a child of `q` that the scan does not meet. */
  ghost predicate Missed(a: Alphabet, t: seq<Cell>, w: Str, q: int, nChar: int, k: Str) {
    && w <= k
    && var c := Next(a, k[|w|..]) - a.off; ChildCode(a, t, q, c) && c !in Seen(a, t, q, nChar)
  }

  /** Where a cell is after the relocation. */
  ghost function PosAfter(a: Alphabet, t: seq<Cell>, q: int, nChar: int, nb: int, x: int): int {
    NewPos(At(t, q).base, nb, Seen(a, t, q, nChar), x)
  }

  ghost predicate LeftBehind(a: Alphabet, t: seq<Cell>, q: int, nChar: int, x: int) {
    x != 0 && At(t, x).check == q && x - At(t, q).base !in Seen(a, t, q, nChar)
  }

  /** A child of `q` has a path one longer than `q`'s. */
  lemma SeenIsChild(a: Alphabet, T: Table, sh: Shape, q: int, nChar: int, x: int)
    requires WellFormed(a, T, sh) && q in sh.path && !Leaf(T.cells, q)
    requires x - At(T.cells, q).base in Seen(a, T.cells, q, nChar)
    ensures x in sh.path && x != 0 && x != q && sh.path[x] == sh.path[q] + [x - At(T.cells, q).base + a.off]
    ensures At(T.cells, x).check == q
  {
    ScanFacts(a, T, sh, q, nChar);
    assert Used(T.cells, q) && ChildAt(T.cells, q, x - At(T.cells, q).base);
    SlotIsChild(a, T.cells, sh.path, q, x - At(T.cells, q).base + a.off);
  }

  /** A seen child takes its cell along. */
  lemma SeenMoves(a: Alphabet, T: Table, sh: Shape, q: int, nChar: int, nb: int, leaf: int, t': seq<Cell>, x: int)
    requires Relocating(a, T, sh, q, nChar, nb, leaf, t') && x - At(T.cells, q).base in Seen(a, T.cells, q, nChar)
    ensures At(t', nb + (x - At(T.cells, q).base)) == At(T.cells, x)
  {
    var c := x - At(T.cells, q).base;
    assert Used(T.cells, q) && MayMove(a, T.cells, q, nb, c);
    ScanFacts(a, T, sh, q, nChar);
    assert RelocatedAt(a, T.cells, t', q, nChar, nb, leaf, nb + c);
  }

  /** Any other used cell stays, with its base but for `q`'s, and is told where its parent has gone. */
  lemma OtherStays(a: Alphabet, T: Table, sh: Shape, q: int, nChar: int, nb: int, leaf: int, t': seq<Cell>, x: int)
    requires Relocating(a, T, sh, q, nChar, nb, leaf, t') && x in sh.path
    requires x - At(T.cells, q).base !in Seen(a, T.cells, q, nChar)
    ensures At(t', x) == Cell(if x == q then nb else At(T.cells, x).base, PosAfter(a, T.cells, q, nChar, nb, At(T.cells, x).check))
  {
    var y, b := At(T.cells, x).check, At(T.cells, q).base;
    assert Used(T.cells, x) && RelocatedAt(a, T.cells, t', q, nChar, nb, leaf, x);
    assert MayMove(a, T.cells, q, nb, x - nb) || x - nb !in Seen(a, T.cells, q, nChar);
    if y - b in Seen(a, T.cells, q, nChar) {
      SeenIsChild(a, T, sh, q, nChar, y);
      assert x != 0;
      assert ChildOk(a, T.cells, sh.path, x);
    }
  }

  lemma QStays(a: Alphabet, T: Table, sh: Shape, q: int, nChar: int)
    requires WellFormed(a, T, sh) && q in sh.path && !Leaf(T.cells, q)
    ensures q - At(T.cells, q).base !in Seen(a, T.cells, q, nChar) && 0 - At(T.cells, q).base !in Seen(a, T.cells, q, nChar)
  {
    if q - At(T.cells, q).base in Seen(a, T.cells, q, nChar) { SeenIsChild(a, T, sh, q, nChar, q); }
    if 0 - At(T.cells, q).base in Seen(a, T.cells, q, nChar) { SeenIsChild(a, T, sh, q, nChar, 0); }
  }

  /** A child that is not left behind is found from where its parent is now, with its base. */
  lemma ChildFollows(a: Alphabet, T: Table, sh: Shape, q: int, nChar: int, nb: int, leaf: int, t': seq<Cell>, x: int, ch: int, z: int)
    requires Relocating(a, T, sh, q, nChar, nb, leaf, t') && x in sh.path && z in sh.path && !Leaf(T.cells, x)
    requires z == Slot(a, T.cells, x, ch) && At(T.cells, z).check == x && z != 0
    requires !LeftBehind(a, T.cells, q, nChar, z)
    ensures var x', z' := PosAfter(a, T.cells, q, nChar, nb, x), PosAfter(a, T.cells, q, nChar, nb, z);
      && z' == Slot(a, t', x', ch) && At(t', z').check == x' && At(t', z').base == if z == q then nb else At(T.cells, z).base
  {
    hide WellFormed, Seen;
    var b, D := At(T.cells, q).base, Seen(a, T.cells, q, nChar);
    QStays(a, T, sh, q, nChar);
    if x - b in D { SeenMoves(a, T, sh, q, nChar, nb, leaf, t', x); SeenIsChild(a, T, sh, q, nChar, x); }
    else { OtherStays(a, T, sh, q, nChar, nb, leaf, t', x); }
    if z - b in D { SeenMoves(a, T, sh, q, nChar, nb, leaf, t', z); SeenIsChild(a, T, sh, q, nChar, z); }
    else { OtherStays(a, T, sh, q, nChar, nb, leaf, t', z); }
  }

  // ---------------------------------------------------------------- the way to the relocated cell

  /** The next cell on the way to a cell further down. */
  lemma NextOnWay(a: Alphabet, t: seq<Cell>, path: map<int, Str>, x: int, q: int) returns (z: int)
    requires Tree(a, t, path) && x in path && q in path && path[x] <= path[q] && x != q
    ensures |path[x]| < |path[q]| && z in path && z != 0 && path[z] == path[q][..|path[x]| + 1]
    ensures z == Slot(a, t, x, path[q][|path[x]|]) && At(t, z).check == x && path[z] <= path[q] && !Leaf(t, x)
    ensures z == q || !Leaf(t, z)
  {
    if |path[x]| == |path[q]| { PathInjective(a, t, path, x, q); }
    z := Ancestor(a, t, path, q, |path[x]| + 1);
    assert path[z] == path[x] + [path[q][|path[x]|]];
    ChildAtSlot(a, t, path, x, path[q][|path[x]|], z);
    var y := Ancestor(a, t, path, q, |path[x]|);
    PathInjective(a, t, path, x, y);
  }

  /** Above the relocated cell nothing is left behind: a search goes down to it as before. */
  lemma {:induction false} WayToQ(a: Alphabet, T: Table, sh: Shape, q: int, nChar: int, nb: int, leaf: int, t': seq<Cell>, s: Str, x: int)
    requires Relocating(a, T, sh, q, nChar, nb, leaf, t') && x in sh.path && sh.path[x] <= sh.path[q] <= s
    ensures SearchAt(a, T.(cells := t'), PosAfter(a, T.cells, q, nChar, nb, x), s[|sh.path[x]|..])
         == SearchAt(a, T.(cells := t'), q, s[|sh.path[q]|..])
    decreases |sh.path[q]| - |sh.path[x]|
  {
    hide WellFormed, Seen, NewBase, RelocatedTo, ChildCode, SearchAt;
    QStays(a, T, sh, q, nChar);
    if x != q {
      WellFormedTree(a, T, sh);
      var z := NextOnWay(a, T.cells, sh.path, x, q);
      var n := |sh.path[x]|;
      ReadOne(s, n);
      ChildFollows(a, T, sh, q, nChar, nb, leaf, t', x, s[n], z);
      SearchStep(a, T.(cells := t'), PosAfter(a, T.cells, q, nChar, nb, x), s[n..], PosAfter(a, T.cells, q, nChar, nb, z));
      RelocatedBase(a, T, sh, q, nChar, nb, leaf, t');
      WayToQ(a, T, sh, q, nChar, nb, leaf, t', s, z);
    }
  }

  lemma WellFormedTree(a: Alphabet, T: Table, sh: Shape)
    requires WellFormed(a, T, sh)
    ensures Tree(a, T.cells, sh.path) && a.Valid()
  {
  }

  lemma RelocatedBase(a: Alphabet, T: Table, sh: Shape, q: int, nChar: int, nb: int, leaf: int, t': seq<Cell>)
    requires Relocating(a, T, sh, q, nChar, nb, leaf, t')
    ensures At(t', q).base == nb >= 0 && At(t', nb + nChar) == Cell(leaf, q) && 0 <= nb + nChar
    ensures nb != At(T.cells, q).base
  {
    assert RelocatedAt(a, T.cells, t', q, nChar, nb, leaf, q) && RelocatedAt(a, T.cells, t', q, nChar, nb, leaf, nb + nChar);
    assert Used(T.cells, q);
  }

  /** The new key is found under its number, whatever happens to the others. */
  lemma NewKeyFound(a: Alphabet, T: Table, sh: Shape, q: int, ch: int, nb: int, s: Str, i: int, t': seq<Cell>)
    requires Relocating(a, T, sh, q, ch - a.off, nb, -1 - i, t') && NewKey(a, T, sh, q, ch, s, i)
    ensures Search(a, T.(cells := t'), s) == i + 1
  {
    hide WellFormed, Seen, NewBase, RelocatedTo, ChildCode, SearchAt, At, Used;
    var w := sh.path[q];
    RootOnWay(a, T, sh, q, ch - a.off);
    NewKeyText(a, T, sh, q, ch, s, i);
    ReadNone(s);
    WayToQ(a, T, sh, q, ch - a.off, nb, -1 - i, t', s, 0);
    RelocatedBase(a, T, sh, q, ch - a.off, nb, -1 - i, t');
    SameTexts(T, t', i);
    SearchStep(a, T.(cells := t'), q, s[|w|..], nb + (ch - a.off));
  }

  lemma NewKeyText(a: Alphabet, T: Table, sh: Shape, q: int, ch: int, s: Str, i: int)
    requires q in sh.path && NewKey(a, T, sh, q, ch, s, i)
    ensures var w := sh.path[q]; w <= s && Next(a, s[|w|..]) == ch && (s[|w|..] != [] ==> s[|w|..][1..] == Text(T, i)) && i >= 0
  {
    hide Text;
    WordSplit(a, sh.path[q], s, ch);
  }

  lemma WordSplit(a: Alphabet, w: Str, s: Str, ch: int)
    requires w + [ch] <= s + [a.term]
    ensures w <= s && Next(a, s[|w|..]) == ch && (s[|w|..] != [] ==> s[|w|..][1..] == Rest(s, |w| + 1))
  {
    assert (s + [a.term])[|w|] == ch;
    assert w == (s + [a.term])[..|w|] == s[..|w|];
  }

  lemma RootOnWay(a: Alphabet, T: Table, sh: Shape, q: int, nChar: int)
    requires WellFormed(a, T, sh) && q in sh.path && !Leaf(T.cells, q)
    ensures 0 in sh.path && sh.path[0] == [] && forall nb :: PosAfter(a, T.cells, q, nChar, nb, 0) == 0
  {
    QStays(a, T, sh, q, nChar);
  }

  // ---------------------------------------------------------------- the keys that are kept

  /** From a cell on the way to a key that no missed child is on, the key is still found. */
  lemma {:induction false} KeptBelow(a: Alphabet, T: Table, sh: Shape, q: int, nChar: int, nb: int, leaf: int, t': seq<Cell>,
                                     k: Str, x: int, n: nat)
    requires Relocating(a, T, sh, q, nChar, nb, leaf, t') && k in sh.content && !Missed(a, T.cells, sh.path[q], q, nChar, k)
    requires x in sh.path && !Leaf(T.cells, x) && n <= |k| && sh.path[x] == k[..n]
    ensures SearchAt(a, T.(cells := t'), PosAfter(a, T.cells, q, nChar, nb, x), k[n..]) == sh.content[k]
    decreases |k| - n
  {
    hide WellFormed, Seen, NewBase, RelocatedTo, ChildCode, Missed, LeftBehind, SearchAt, At, PosAfter;
    var ch := Next(a, k[n..]);
    var z := Slot(a, T.cells, x, ch);
    KeyOnWay(a, T, sh, x, k, n);
    NotLeftBehind(a, T, sh, q, nChar, x, k, n);
    ChildFollows(a, T, sh, q, nChar, nb, leaf, t', x, ch, z);
    RelocatedBase(a, T, sh, q, nChar, nb, leaf, t');
    SameTexts(T, t', -1 - At(T.cells, z).base);
    ReadOne(k, n);
    SearchStep(a, T, x, k[n..], z);
    SearchStep(a, T.(cells := t'), PosAfter(a, T.cells, q, nChar, nb, x), k[n..], PosAfter(a, T.cells, q, nChar, nb, z));
    if !Leaf(T.cells, z) {
      KeptBelow(a, T, sh, q, nChar, nb, leaf, t', k, z, n + 1);
    }
  }

  /** What a search for a stored key meets next. */
  lemma KeyOnWay(a: Alphabet, T: Table, sh: Shape, x: int, k: Str, n: nat)
    requires WellFormed(a, T, sh) && k in sh.content && x in sh.path && !Leaf(T.cells, x) && n <= |k| && sh.path[x] == k[..n]
    ensures SearchAt(a, T, x, k[n..]) == sh.content[k] > 0
    ensures var z := Slot(a, T.cells, x, Next(a, k[n..]));
      && At(T.cells, z).check == x && z in sh.path && z != 0 && sh.path[z] == k[..n] + [Next(a, k[n..])]
      && (!Leaf(T.cells, z) ==> n < |k| && sh.path[z] == k[..n + 1])
    ensures a.HasCode(Next(a, k[n..]))
  {
    assert KeyOk(a, T, sh, k) && a.Valid();
    var ch := Next(a, k[n..]);
    assert a.HasCode(ch) by { if n < |k| { assert k[n] in k; } }
    if k != [] { assert k[0] in k; }
    RootFacts(a, T, sh);
    hide WellFormed;
    RootCharIsNone(a, T, sh);
    AnswerBelow(a, T, sh, x, k, n);
    NextIsChild(a, T, sh, x, ch);
  }

  lemma RootCharIsNone(a: Alphabet, T: Table, sh: Shape)
    requires WellFormed(a, T, sh)
    ensures !a.HasCode(RootChar(a, T.cells))
  {
  }

  lemma NotLeftBehind(a: Alphabet, T: Table, sh: Shape, q: int, nChar: int, x: int, k: Str, n: nat)
    requires WellFormed(a, T, sh) && q in sh.path && !Missed(a, T.cells, sh.path[q], q, nChar, k)
    requires x in sh.path && !Leaf(T.cells, x) && n <= |k| && sh.path[x] == k[..n] && a.HasCode(Next(a, k[n..]))
    ensures !LeftBehind(a, T.cells, q, nChar, Slot(a, T.cells, x, Next(a, k[n..])))
      || At(T.cells, Slot(a, T.cells, x, Next(a, k[n..]))).check != x
  {
  }

  // ---------------------------------------------------------------- the keys that are lost

  /** The number of a stored key that passes through cell `p`. */
  ghost predicate NumberBelow(a: Alphabet, sh: Shape, p: int, n: int)
    requires p in sh.path
  {
    exists k :: k in sh.content && sh.path[p] <= k + [a.term] && sh.content[k] == n
  }

  /** Below a child that is left behind, every cell stays as it is. */
  lemma {:induction false} BehindStays(a: Alphabet, T: Table, sh: Shape, q: int, nChar: int, nb: int, leaf: int, t': seq<Cell>, p: int, x: int)
    requires Relocating(a, T, sh, q, nChar, nb, leaf, t')
    requires p in sh.path && LeftBehind(a, T.cells, q, nChar, p) && x in sh.path && sh.path[p] <= sh.path[x]
    ensures At(t', x) == At(T.cells, x) && x - At(T.cells, q).base !in Seen(a, T.cells, q, nChar) && x != q && x != 0
  {
    var b := At(T.cells, q).base;
    CellFacts(a, T, sh, p);
    WellFormedTree(a, T, sh);
    assert x != 0 && |sh.path[p]| == |sh.path[q]| + 1;
    CellFacts(a, T, sh, x);
    hide WellFormed, CellOk, KeyOk, RelocatedTo, NewBase;
    if x - b in Seen(a, T.cells, q, nChar) {
      SeenIsChild(a, T, sh, q, nChar, x);
      PathInjective(a, T.cells, sh.path, x, p);
    }
    var y := At(T.cells, x).check;
    if y - b in Seen(a, T.cells, q, nChar) {
      SeenIsChild(a, T, sh, q, nChar, y);
      assert |sh.path[y]| == |sh.path[p]| && sh.path[y] == sh.path[p];
      PathInjective(a, T.cells, sh.path, y, p);
    }
    OtherStays(a, T, sh, q, nChar, nb, leaf, t', x);
  }

  /** What names `x`, a cell outside the moved ones, as its parent after the relocation, did so before. */
  lemma SameChild(a: Alphabet, T: Table, sh: Shape, q: int, nChar: int, nb: int, leaf: int, t': seq<Cell>, x: int, z: int)
    requires Relocating(a, T, sh, q, nChar, nb, leaf, t') && x in sh.path && At(t', z).check == x && z != q
    requires x == q ==> z - nb !in Seen(a, T.cells, q, nChar) && z != nb + nChar
    requires x - At(T.cells, q).base !in Seen(a, T.cells, q, nChar)
    ensures At(T.cells, z) == At(t', z)
  {
    var b, D := At(T.cells, q).base, Seen(a, T.cells, q, nChar);
    assert RelocatedAt(a, T.cells, t', q, nChar, nb, leaf, z) && Used(T.cells, x);
    var y := At(T.cells, z).check;
    assert MayMove(a, T.cells, q, nb, y - b) || y - b !in D;
    assert MayMove(a, T.cells, q, nb, z - nb) || z - nb !in D;
  }

  /** A search that gets below a child left behind finds a number from there, or nothing. */
  lemma {:induction false} StrayAnswer(a: Alphabet, T: Table, sh: Shape, q: int, nChar: int, nb: int, leaf: int, t': seq<Cell>,
                                       p: int, x: int, r: Str)
    requires Relocating(a, T, sh, q, nChar, nb, leaf, t')
    requires p in sh.path && LeftBehind(a, T.cells, q, nChar, p) && x in sh.path && sh.path[p] <= sh.path[x] && !Leaf(T.cells, x)
    ensures var n := SearchAt(a, T.(cells := t'), x, r); n == 0 || NumberBelow(a, sh, p, n)
    decreases |r|
  {
    hide WellFormed, Seen, NewBase, RelocatedTo, ChildCode, SearchAt, NumberBelow, LeftBehind;
    BehindStays(a, T, sh, q, nChar, nb, leaf, t', p, x);
    var z := Slot(a, t', x, Next(a, r));
    SearchStep(a, T.(cells := t'), x, r, z);
    if At(t', z).check == x {
      BehindOnly(a, T, sh, q, nChar, nb, leaf, t', p, x, z);
      SameChild(a, T, sh, q, nChar, nb, leaf, t', x, z);
      StepBelow(a, T, sh, p, x, z);
      if Leaf(t', z) {
        LeafBelow(a, T, sh, p, z);
      } else if r != [] {
        StrayAnswer(a, T, sh, q, nChar, nb, leaf, t', p, z, r[1..]);
      }
    }
  }

  lemma BehindOnly(a: Alphabet, T: Table, sh: Shape, q: int, nChar: int, nb: int, leaf: int, t': seq<Cell>, p: int, x: int, z: int)
    requires Relocating(a, T, sh, q, nChar, nb, leaf, t')
    requires p in sh.path && LeftBehind(a, T.cells, q, nChar, p) && x in sh.path && sh.path[p] <= sh.path[x]
    requires At(t', z).check == x
    ensures z != q
  {
    if z == q {
      QStays(a, T, sh, q, nChar);
      OtherStays(a, T, sh, q, nChar, nb, leaf, t', q);
      CellFacts(a, T, sh, p);
      BehindStays(a, T, sh, q, nChar, nb, leaf, t', p, x);
      QIsHigh(a, T, sh, q, x);
      MovedAway(a, T, sh, q, nChar, nb, leaf, t', At(T.cells, q).check, x);
    }
  }

  lemma QIsHigh(a: Alphabet, T: Table, sh: Shape, q: int, x: int)
    requires WellFormed(a, T, sh) && q in sh.path && x in sh.path && |sh.path[q]| < |sh.path[x]|
    ensures At(T.cells, q).check != x
  {
    if q != 0 { CellFacts(a, T, sh, q); }
  }

  /** No used cell is where a moved one goes. */
  lemma MovedAway(a: Alphabet, T: Table, sh: Shape, q: int, nChar: int, nb: int, leaf: int, t': seq<Cell>, y: int, x: int)
    requires Relocating(a, T, sh, q, nChar, nb, leaf, t') && x in sh.path && y != x
    ensures PosAfter(a, T.cells, q, nChar, nb, y) != x
  {
    var b := At(T.cells, q).base;
    assert Used(T.cells, x);
    assert MayMove(a, T.cells, q, nb, y - b) || y - b !in Seen(a, T.cells, q, nChar);
  }

  lemma StepBelow(a: Alphabet, T: Table, sh: Shape, p: int, x: int, z: int)
    requires WellFormed(a, T, sh) && p in sh.path && x in sh.path && x != 0 && sh.path[p] <= sh.path[x] && At(T.cells, z).check == x
    ensures z in sh.path && z != 0 && sh.path[p] <= sh.path[z]
  {
    assert Used(T.cells, x) && Used(T.cells, z) && Used(T.cells, 0);
    assert ChildOk(a, T.cells, sh.path, z);
  }

  lemma LeafBelow(a: Alphabet, T: Table, sh: Shape, p: int, z: int)
    requires WellFormed(a, T, sh) && p in sh.path && z in sh.path && z != 0 && Leaf(T.cells, z) && sh.path[p] <= sh.path[z]
    ensures NumberBelow(a, sh, p, -At(T.cells, z).base)
  {
    CellFacts(a, T, sh, z);
    assert sh.path[p] <= sh.owner[z] + [a.term];
  }

  lemma ChildIsOnPath(a: Alphabet, T: Table, sh: Shape, q: int, c: int)
    requires WellFormed(a, T, sh) && q in sh.path && !Leaf(T.cells, q) && ChildCode(a, T.cells, q, c)
    ensures var p := At(T.cells, q).base + c; p in sh.path && p != 0 && At(T.cells, p).check == q && sh.path[p] == sh.path[q] + [c + a.off]
  {
    assert Used(T.cells, q);
    SlotIsChild(a, T.cells, sh.path, q, c + a.off);
  }

  lemma OnWayToKey(a: Alphabet, sh: Shape, q: int, p: int, k: Str)
    requires q in sh.path && p in sh.path && sh.path[q] <= k && sh.path[p] == sh.path[q] + [Next(a, k[|sh.path[q]|..])]
    ensures sh.path[p] <= k + [a.term]
  {
    ReadOne(k, |sh.path[q]|);
  }

  /** What a search finds at a child that is left behind comes from below it. */
  lemma StrayThere(a: Alphabet, T: Table, sh: Shape, q: int, nChar: int, nb: int, leaf: int, t': seq<Cell>, p: int, r: Str)
    requires Relocating(a, T, sh, q, nChar, nb, leaf, t')
    requires p in sh.path && LeftBehind(a, T.cells, q, nChar, p) && At(T.cells, p) == At(t', p)
    ensures !Leaf(t', p) && r != [] ==>
      var n := SearchAt(a, T.(cells := t'), p, r[1..]); n == 0 || NumberBelow(a, sh, p, n)
    ensures Leaf(t', p) ==> var n := LeafNumber(T.(cells := t'), p, r); n == 0 || NumberBelow(a, sh, p, n)
  {
    hide WellFormed, NewBase, RelocatedTo, NumberBelow, SearchAt, Seen;
    if Leaf(t', p) {
      LeafBelow(a, T, sh, p, p);
    } else if r != [] {
      StrayAnswer(a, T, sh, q, nChar, nb, leaf, t', p, p, r[1..]);
    }
  }

  /** A key below a missed child is not found under its number. */
  lemma MissedKeyIsLost(a: Alphabet, T: Table, sh: Shape, q: int, nChar: int, nb: int, leaf: int, t': seq<Cell>, k: Str)
    requires Relocating(a, T, sh, q, nChar, nb, leaf, t') && k in sh.content && Missed(a, T.cells, sh.path[q], q, nChar, k)
    ensures Search(a, T.(cells := t'), k) != sh.content[k]
  {
    hide WellFormed, Seen, NewBase, RelocatedTo, SearchAt, Text, At, Leaf, Used;
    var m := |sh.path[q]|;
    var c := Next(a, k[m..]) - a.off;
    RootOnWay(a, T, sh, q, nChar);
    ReadNone(k);
    WayToQ(a, T, sh, q, nChar, nb, leaf, t', k, 0);
    RelocatedBase(a, T, sh, q, nChar, nb, leaf, t');
    ChildIsOnPath(a, T, sh, q, c);
    OnWayToKey(a, sh, q, At(T.cells, q).base + c, k);
    NumberOwn(a, T, sh, k);
    SearchStep(a, T.(cells := t'), q, k[m..], nb + c);
    if At(t', nb + c).check == q {
      OtherChild(a, T, sh, q, nChar, nb, leaf, t', c);
      NumbersApart(a, T, sh, q, At(T.cells, q).base + c, nb + c, k);
      StrayThere(a, T, sh, q, nChar, nb, leaf, t', nb + c, k[m..]);
    }
  }

  lemma NumberOwn(a: Alphabet, T: Table, sh: Shape, k: Str)
    requires WellFormed(a, T, sh) && k in sh.content
    ensures sh.content[k] > 0
  {
    assert KeyOk(a, T, sh, k);
  }

  /** Under the new base the code of a missed child leads to nothing, or to another missed child. */
  lemma OtherChild(a: Alphabet, T: Table, sh: Shape, q: int, nChar: int, nb: int, leaf: int, t': seq<Cell>, c: int)
    requires Relocating(a, T, sh, q, nChar, nb, leaf, t')
    requires ChildCode(a, T.cells, q, c) && c !in Seen(a, T.cells, q, nChar) && At(t', nb + c).check == q
    ensures var z := nb + c; z in sh.path && LeftBehind(a, T.cells, q, nChar, z) && At(T.cells, z) == At(t', z)
    ensures nb + c != At(T.cells, q).base + c
  {
    var b, z := At(T.cells, q).base, nb + c;
    RelocatedBase(a, T, sh, q, nChar, nb, leaf, t');
    QStays(a, T, sh, q, nChar);
    if z == q { RootOnly(a, T, sh, q, nChar, nb, leaf, t'); }
    SameChild(a, T, sh, q, nChar, nb, leaf, t', q, z);
    assert Used(T.cells, q) && Used(T.cells, z) && RelocatedAt(a, T.cells, t', q, nChar, nb, leaf, z);
  }

  /** Only the root names itself. */
  lemma RootOnly(a: Alphabet, T: Table, sh: Shape, q: int, nChar: int, nb: int, leaf: int, t': seq<Cell>)
    requires Relocating(a, T, sh, q, nChar, nb, leaf, t') && At(t', q).check == q
    ensures q == 0
  {
    QStays(a, T, sh, q, nChar);
    OtherStays(a, T, sh, q, nChar, nb, leaf, t', q);
    if q != 0 { CellFacts(a, T, sh, q); }
    if At(T.cells, q).check != q { MovedAway(a, T, sh, q, nChar, nb, leaf, t', At(T.cells, q).check, q); }
  }

  /** Keys below different children of a cell have different numbers. */
  lemma NumbersApart(a: Alphabet, T: Table, sh: Shape, q: int, p: int, z: int, k: Str)
    requires WellFormed(a, T, sh) && q in sh.path && k in sh.content && p in sh.path && z in sh.path && p != z && p != 0 && z != 0
    requires At(T.cells, p).check == q && At(T.cells, z).check == q && sh.path[p] <= k + [a.term]
    ensures !NumberBelow(a, sh, z, sh.content[k])
  {
    CellFacts(a, T, sh, p);
    CellFacts(a, T, sh, z);
    if NumberBelow(a, sh, z, sh.content[k]) {
      var l :| l in sh.content && sh.path[z] <= l + [a.term] && sh.content[l] == sh.content[k];
      assert KeyOk(a, T, sh, k) && KeyOk(a, T, sh, l);
      assert sh.path[p] == sh.path[z];
      WellFormedTree(a, T, sh);
      PathInjective(a, T.cells, sh.path, p, z);
    }
  }

  // ---------------------------------------------------------------- the exact condition

  /** After a relocation a stored key is found under its number if and only if no missed child is on its way. */
  lemma KeyKeptIff(a: Alphabet, T: Table, sh: Shape, q: int, nChar: int, nb: int, leaf: int, t': seq<Cell>, k: Str)
    requires Relocating(a, T, sh, q, nChar, nb, leaf, t') && k in sh.content
    ensures Search(a, T.(cells := t'), k) == sh.content[k] <==> !Missed(a, T.cells, sh.path[q], q, nChar, k)
  {
    hide WellFormed, Seen, NewBase, RelocatedTo, ChildCode;
    if Missed(a, T.cells, sh.path[q], q, nChar, k) {
      MissedKeyIsLost(a, T, sh, q, nChar, nb, leaf, t', k);
    } else {
      RootOnWay(a, T, sh, q, nChar);
      RootFacts(a, T, sh);
      assert k[0..] == k && k[..0] == [];
      KeptBelow(a, T, sh, q, nChar, nb, leaf, t', k, 0, 0);
    }
  }

  /** Every child has a key below it. */
  lemma KeyBelowChild(a: Alphabet, T: Table, sh: Shape, q: int, nChar: int, c: int) returns (k: Str)
    requires WellFormed(a, T, sh) && q in sh.path && !Leaf(T.cells, q)
    requires ChildCode(a, T.cells, q, c) && c !in Seen(a, T.cells, q, nChar)
    ensures k in sh.content && Missed(a, T.cells, sh.path[q], q, nChar, k)
  {
    var p := At(T.cells, q).base + c;
    assert Used(T.cells, q);
    SlotIsChild(a, T.cells, sh.path, q, c + a.off);
    CellFacts(a, T, sh, p);
    k := sh.owner[p];
    WordSplit(a, sh.path[q], k, c + a.off);
  }

  /** A relocation keeps every stored key if and only if its scan sees every child. */
  lemma RelocationRightIff(a: Alphabet, T: Table, sh: Shape, q: int, nChar: int, nb: int, leaf: int, t': seq<Cell>)
    requires Relocating(a, T, sh, q, nChar, nb, leaf, t')
    ensures FindsAll(a, T.(cells := t'), sh.content) <==> AllSeen(a, T.cells, q, nChar)
  {
    hide WellFormed, NewBase, RelocatedTo;
    ScanFacts(a, T, sh, q, nChar);
    if AllSeen(a, T.cells, q, nChar) {
      forall k | k in sh.content ensures Search(a, T.(cells := t'), k) == sh.content[k] {
        KeyKeptIff(a, T, sh, q, nChar, nb, leaf, t', k);
      }
    } else {
      var c :| ChildCode(a, T.cells, q, c) && !(c < nChar || c < a.cnt + a.off);
      var k := KeyBelowChild(a, T, sh, q, nChar, c);
      MissedKeyIsLost(a, T, sh, q, nChar, nb, leaf, t', k);
    }
  }

  /** An offset of 1 or more lets the scan see every child. */
  lemma OffsetSees(a: Alphabet, t: seq<Cell>, q: int, nChar: int)
    requires a.off >= 1
    ensures AllSeen(a, t, q, nChar)
  {
  }
}
