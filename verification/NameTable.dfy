/** The reader generated from utils/nomenclate_tmpl.hpp: incremental look-up over finished tables. */
module NameTable {
  import opened DoubleArray
  import opened TrieUpdates
  import opened TrieSearch

  /** A place in the trie: a cell, and how much of its tail has been read. */
  datatype Locus = Locus(offset: int, tailPos: int) {
    predicate Found() { offset >= 0 }
  }

  const NOWHERE := Locus(-1, 0)
  const ROOT := Locus(0, 0)

  /** The emitted alphabets put the terminator at one end. */
  predicate Emitted(a: Alphabet) { a.term == a.off + 1 || a.term == a.off + a.cnt }

  predicate IsValid(a: Alphabet, ch: int) {
    if a.term == a.off + 1 then a.term < ch <= a.term + a.cnt else a.off < ch < a.term
  }

  /** `loc` is where reading `w` from the root ends. */
  ghost predicate Stands(a: Alphabet, T: Table, sh: Shape, loc: Locus, w: Str) {
    && loc.offset in sh.path
    && if Leaf(T.cells, loc.offset) then
         var text := Text(T, -1 - At(T.cells, loc.offset).base);
         && loc.offset != 0 && 0 <= loc.tailPos <= |text| && a.term !in w
         && w == sh.path[loc.offset] + text[..loc.tailPos]
       else
         loc.tailPos == 0 && w == sh.path[loc.offset]
  }

  ghost predicate PrefixOfKey(sh: Shape, w: Str) { w == [] || exists s :: s in sh.content && w <= s }

  // ---------------------------------------------------------------- where a text can stand

  /** A text stands at one place at most. */
  lemma StandsOnce(a: Alphabet, T: Table, sh: Shape, l: Locus, m: Locus, w: Str)
    requires WellFormed(a, T, sh) && Stands(a, T, sh, l, w) && Stands(a, T, sh, m, w)
    ensures l == m
  {
    var p, q := l.offset, m.offset;
    if |sh.path[p]| <= |sh.path[q]| { SameCell(a, T, sh, l, m, w); } else { SameCell(a, T, sh, m, l, w); }
  }

  lemma SameCell(a: Alphabet, T: Table, sh: Shape, l: Locus, m: Locus, w: Str)
    requires WellFormed(a, T, sh) && Stands(a, T, sh, l, w) && Stands(a, T, sh, m, w)
    requires |sh.path[l.offset]| <= |sh.path[m.offset]|
    ensures l.offset == m.offset
  {
    var p, q := l.offset, m.offset;
    assert sh.path[p] == w[..|sh.path[p]|] && sh.path[q] == w[..|sh.path[q]|];
    assert sh.path[p] <= sh.path[q];
    if Leaf(T.cells, p) {
      LeafEndsPath(a, T.cells, sh.path, p, q);
    } else {
      PathInjective(a, T.cells, sh.path, p, q);
    }
  }

  lemma NoChildNoExtension(a: Alphabet, T: Table, sh: Shape, q: int, ch: int, w: Str)
    requires WellFormed(a, T, sh) && q in sh.path && !Leaf(T.cells, q)
    requires At(T.cells, Slot(a, T.cells, q, ch)).check != q && sh.path[q] + [ch] <= w && a.term !in w
    ensures !PrefixOfKey(sh, w)
  {
    forall s | s in sh.content ensures !(w <= s) {
      if w <= s {
        assert KeyOk(a, T, sh, s);
        var h := sh.home[s];
        assert h != 0 && CellOk(a, T, sh, h);
        assert sh.path[q] + [ch] <= s + [a.term];
        if |sh.path[h]| <= |sh.path[q]| {
          assert sh.path[h] <= sh.path[q];
          LeafEndsPath(a, T.cells, sh.path, h, q);
        } else {
          var c := Ancestor(a, T.cells, sh.path, h, |sh.path[q]| + 1);
          assert sh.path[c] == sh.path[q] + [ch];
          ChildAtSlot(a, T.cells, sh.path, q, ch, c);
        }
      }
    }
  }

  lemma BadCharNoExtension(a: Alphabet, T: Table, sh: Shape, w: Str, ch: int)
    requires WellFormed(a, T, sh) && Emitted(a) && ch in w && !IsValid(a, ch)
    ensures !PrefixOfKey(sh, w)
  {
    forall s | s in sh.content ensures !(w <= s) {
      assert KeyOk(a, T, sh, s);
      assert w <= s ==> ch in s;
    }
  }

  /** Beyond a leaf there is one key only. */
  lemma LeafPrefix(a: Alphabet, T: Table, sh: Shape, p: int, w: Str)
    requires WellFormed(a, T, sh) && p in sh.path && p != 0 && Leaf(T.cells, p)
    requires sh.path[p] <= w && a.term !in w
    ensures PrefixOfKey(sh, w) <==> w <= sh.path[p] + Text(T, -1 - At(T.cells, p).base)
  {
    assert CellOk(a, T, sh, p) && ChildOk(a, T.cells, sh.path, p);
    var o := sh.owner[p];
    assert KeyOk(a, T, sh, o);
    EndsInTerm(sh.path[p], o, a.term);
    assert o == sh.path[p] + Text(T, -1 - At(T.cells, p).base);
    forall s | s in sh.content && w <= s ensures s == o {
      assert KeyOk(a, T, sh, s);
      LeafDecides(a, T, sh, p, s);
    }
  }

  lemma StandsOnKey(a: Alphabet, T: Table, sh: Shape, loc: Locus, w: Str)
    requires WellFormed(a, T, sh) && Stands(a, T, sh, loc, w)
    ensures PrefixOfKey(sh, w)
  {
    hide WellFormed, Text;
    var p := loc.offset;
    if Leaf(T.cells, p) {
      var text := Text(T, -1 - At(T.cells, p).base);
      LeafPrefix(a, T, sh, p, w);
      assert text == text[..loc.tailPos] + text[loc.tailPos..];
    } else if p != 0 {
      CellFacts(a, T, sh, p);
    } else {
      RootFacts(a, T, sh);
    }
  }

  // ---------------------------------------------------------------- reading on

  /** The part of a look-up that walks cells: `first` characters of `s` have been read and `n` is an internal cell. */
  ghost predicate Walking(a: Alphabet, T: Table, sh: Shape, w: Str, s: Str, n: int, first: int) {
    WellFormed(a, T, sh) && 0 <= first <= |s| && n in sh.path && !Leaf(T.cells, n) && sh.path[n] == w + s[..first]
  }

  lemma WalkStops(a: Alphabet, T: Table, sh: Shape, w: Str, s: Str, n: int, first: int)
    requires Walking(a, T, sh, w, s, n, first) && first < |s| && Emitted(a)
    requires !IsValid(a, s[first]) || At(T.cells, Slot(a, T.cells, n, s[first])).check != n
    ensures !PrefixOfKey(sh, w + s)
  {
    if !IsValid(a, s[first]) {
      assert s[first] in w + s;
      BadCharNoExtension(a, T, sh, w + s, s[first]);
    } else if a.term in w + s {
      assert !IsValid(a, a.term);
      BadCharNoExtension(a, T, sh, w + s, a.term);
    } else {
      assert sh.path[n] + [s[first]] == w + s[..first + 1];
      NoChildNoExtension(a, T, sh, n, s[first], w + s);
    }
  }

  lemma WalkGoesOn(a: Alphabet, T: Table, sh: Shape, w: Str, s: Str, n: int, first: int, p: int)
    requires Walking(a, T, sh, w, s, n, first) && first < |s| && Emitted(a)
    requires IsValid(a, s[first]) && p == Slot(a, T.cells, n, s[first]) && At(T.cells, p).check == n
    ensures p in sh.path && p != 0 && 0 <= p < |T.cells| && sh.path[p] == w + s[..first + 1]
    ensures !Leaf(T.cells, p) ==> Walking(a, T, sh, w, s, p, first + 1)
    ensures Leaf(T.cells, p) ==> Stands(a, T, sh, Locus(p, 0), w + s[..first + 1])
  {
    InnerPathLegal(a, T, sh, n);
    assert Used(T.cells, n) && Used(T.cells, p) && Used(T.cells, 0);
    SlotIsChild(a, T.cells, sh.path, n, s[first]);
    assert s[..first + 1] == s[..first] + [s[first]];
  }

  lemma StandsAt(a: Alphabet, T: Table, sh: Shape, loc: Locus, w: Str, s: Str)
    requires WellFormed(a, T, sh) && Stands(a, T, sh, loc, w)
    ensures 0 <= loc.offset && (!Leaf(T.cells, loc.offset) ==> loc.tailPos == 0 && Walking(a, T, sh, w, s, loc.offset, 0))
  {
    assert Used(T.cells, loc.offset);
    assert w + s[..0] == w;
  }

  lemma WalkEnds(a: Alphabet, T: Table, sh: Shape, w: Str, s: Str, n: int)
    requires Walking(a, T, sh, w, s, n, |s|)
    ensures 0 <= n && Stands(a, T, sh, Locus(n, 0), w + s) && PrefixOfKey(sh, w + s)
  {
    assert Used(T.cells, n) && s[..|s|] == s;
    StandsOnKey(a, T, sh, Locus(n, 0), w + s);
  }

  lemma LeafBounds(a: Alphabet, T: Table, sh: Shape, p: int, tailPos: int, w: Str)
    requires WellFormed(a, T, sh) && Stands(a, T, sh, Locus(p, tailPos), w) && Leaf(T.cells, p)
    ensures 0 <= p && 0 <= -1 - At(T.cells, p).base < |T.refs|
    ensures var r := T.refs[-1 - At(T.cells, p).base];
      && r.offset + r.size <= |T.tail| && 0 <= tailPos <= r.size
      && Text(T, -1 - At(T.cells, p).base) == T.tail[r.offset..r.offset + r.size]
  {
    LeafRef(a, T, sh, p);
  }

  lemma TailFacts(a: Alphabet, T: Table, sh: Shape, p: int, w: Str, k: int, s: Str)
    requires Emitted(a) && Stands(a, T, sh, Locus(p, k), w) && Leaf(T.cells, p)
    ensures var text := Text(T, -1 - At(T.cells, p).base);
      p in sh.path && p != 0 && 0 <= k <= |text| && w == sh.path[p] + text[..k]
    ensures !IsValid(a, a.term) && a.term !in w && (a.term in w + s <==> a.term in s)
  {
  }

  /** Reading `s` on from inside the tail of the leaf `p`. */
  lemma TailDecides(a: Alphabet, T: Table, sh: Shape, p: int, w: Str, tailPos: int, s: Str)
    requires WellFormed(a, T, sh) && Emitted(a) && Stands(a, T, sh, Locus(p, tailPos), w) && Leaf(T.cells, p)
    ensures var text := Text(T, -1 - At(T.cells, p).base);
      && (PrefixOfKey(sh, w + s) <==> |s| <= |text| - tailPos && s == text[tailPos..tailPos + |s|])
      && (PrefixOfKey(sh, w + s) ==> Stands(a, T, sh, Locus(p, tailPos + |s|), w + s))
  {
    hide *;
    var text := Text(T, -1 - At(T.cells, p).base);
    TailFacts(a, T, sh, p, w, tailPos, s);
    if a.term in s {
      BadCharNoExtension(a, T, sh, w + s, a.term);
      TextLegal(a, T, sh, p);
      NotInSlice(text, tailPos, s, a.term);
    } else {
      assert sh.path[p] <= w + s;
      LeafPrefix(a, T, sh, p, w + s);
      PrefixSplit(sh.path[p], text, tailPos, s);
      if |s| <= |text| - tailPos && s == text[tailPos..tailPos + |s|] {
        StandsInTail(a, T, sh, p, tailPos + |s|, w + s);
      }
    }
  }

  lemma StandsInTail(a: Alphabet, T: Table, sh: Shape, p: int, k: int, x: Str)
    requires p in sh.path && p != 0 && Leaf(T.cells, p) && a.term !in x
    requires var text := Text(T, -1 - At(T.cells, p).base); 0 <= k <= |text| && x == sh.path[p] + text[..k]
    ensures Stands(a, T, sh, Locus(p, k), x)
  {
  }

  lemma NotInSlice(text: Str, k: nat, s: Str, ch: int)
    requires ch in s && ch !in text
    ensures !(|s| <= |text| - k && s == text[k..k + |s|])
  {
    var i :| 0 <= i < |s| && s[i] == ch;
    assert k + i < |text| ==> text[k + i] != ch;
  }

  lemma PrefixSplit(u: Str, text: Str, k: nat, s: Str)
    requires k <= |text|
    ensures u + text[..k] + s <= u + text <==> |s| <= |text| - k && s == text[k..k + |s|]
    ensures |s| <= |text| - k && s == text[k..k + |s|] ==> u + text[..k] + s == u + text[..k + |s|]
  {
    if u + text[..k] + s <= u + text {
      assert s == (u + text)[|u| + k..|u| + k + |s|];
    }
    if |s| <= |text| - k && s == text[k..k + |s|] {
      assert text[..k] + s == text[..k + |s|];
    }
  }

  lemma TextLegal(a: Alphabet, T: Table, sh: Shape, p: int)
    requires WellFormed(a, T, sh) && p in sh.path && p != 0 && Leaf(T.cells, p)
    ensures a.term !in Text(T, -1 - At(T.cells, p).base)
  {
    assert CellOk(a, T, sh, p) && KeyOk(a, T, sh, sh.owner[p]);
  }

  // ---------------------------------------------------------------- the generated functions

  /** Compares the rest of `s` with the tail of a leaf from `tailPos` on. */
  method ReadTail(T: Table, ref: TailRef, tailPos: nat, s: Str, first: nat) returns (ok: bool)
    requires ref.offset + ref.size <= |T.tail| && tailPos <= ref.size && first <= |s|
    ensures var text, n := T.tail[ref.offset..ref.offset + ref.size], |s| - first;
      ok <==> n <= |text| - tailPos && s[first..] == text[tailPos..tailPos + n]
  {
    var text, n := T.tail[ref.offset..ref.offset + ref.size], |s| - first;
    if n > ref.size - tailPos { return false; }
    ghost var rest, want := s[first..], text[tailPos..tailPos + n];
    var k := 0;
    while k < n
      invariant 0 <= k <= n && forall i :: 0 <= i < k ==> rest[i] == want[i]
    {
      assert rest[k] == s[first + k] && want[k] == T.tail[ref.offset + tailPos + k];
      if s[first + k] != T.tail[ref.offset + tailPos + k] { return false; }
      k := k + 1;
    }
    return true;
  }

  /** What locating a text answers: its place, or nothing if it starts no key. */
  ghost predicate Located(a: Alphabet, T: Table, sh: Shape, w: Str, r: Locus) {
    && (r.Found() <==> PrefixOfKey(sh, w))
    && if r.Found() then Stands(a, T, sh, r, w) else r == NOWHERE
  }

  /** Locating `s` and from there `u` answers what locating `s + u` answers; a failure on the way is final. */
  lemma PiecesLocateWhole(a: Alphabet, T: Table, sh: Shape, w: Str, s: Str, u: Str, mid: Locus, last: Locus, whole: Locus)
    requires WellFormed(a, T, sh) && Located(a, T, sh, w + s, mid) && Located(a, T, sh, w + (s + u), whole)
    requires if mid.Found() then Located(a, T, sh, w + s + u, last) else last == NOWHERE
    ensures last == whole
  {
    var v := w + (s + u);
    assert w + s + u == v;
    if whole.Found() {
      ShorterPrefix(sh, w + s, v);
      StandsOnce(a, T, sh, last, whole, v);
    }
  }

  lemma ShorterPrefix(sh: Shape, x: Str, y: Str)
    requires x <= y && PrefixOfKey(sh, y)
    ensures PrefixOfKey(sh, x)
  {
    if y != [] {
      var s :| s in sh.content && y <= s;
      assert x <= s;
    }
  }

  /** Reads `s` on from a locus: finds the place of the whole text, or nothing if it starts no key. */
  method LocateRel(a: Alphabet, T: Table, ghost sh: Shape, loc: Locus, ghost w: Str, s: Str) returns (r: Locus)
    requires WellFormed(a, T, sh) && Emitted(a) && Stands(a, T, sh, loc, w)
    ensures Located(a, T, sh, w + s, r)
  {
    hide WellFormed, Stands, Walking, PrefixOfKey;
    var nPos, first, tailPos := loc.offset, 0, loc.tailPos;
    StandsAt(a, T, sh, loc, w, s);
    ghost var w' := w;
    if At(T.cells, nPos).base >= 0 {
      assert s[..0] == [];
      while first < |s|
        invariant 0 <= first <= |s| && Walking(a, T, sh, w, s, nPos, first)
      {
        if !IsValid(a, s[first]) {
          WalkStops(a, T, sh, w, s, nPos, first);
          return NOWHERE;
        }
        var p := At(T.cells, nPos).base + s[first] - a.off;
        if At(T.cells, p).check != nPos {
          WalkStops(a, T, sh, w, s, nPos, first);
          return NOWHERE;
        }
        WalkGoesOn(a, T, sh, w, s, nPos, first, p);
        nPos := p;
        if At(T.cells, nPos).base < 0 { break; }
        first := first + 1;
      }
      if first == |s| {
        WalkEnds(a, T, sh, w, s, nPos);
        return Locus(nPos, 0);
      }
      first, tailPos, w' := first + 1, 0, w + s[..first + 1];
    }
    assert w' + s[first..] == w + s;
    TailDecides(a, T, sh, nPos, w', tailPos, s[first..]);
    LeafBounds(a, T, sh, nPos, tailPos, w');
    var ok := ReadTail(T, T.refs[-1 - At(T.cells, nPos).base], tailPos, s, first);
    return if ok then Locus(nPos, tailPos + (|s| - first)) else NOWHERE;
  }

  /** The number of the key that reading `s` on from a locus completes, or 0. */
  method FindRel(a: Alphabet, T: Table, ghost sh: Shape, loc: Locus, ghost w: Str, s: Str) returns (r: int)
    requires WellFormed(a, T, sh) && Emitted(a) && Stands(a, T, sh, loc, w)
    ensures r == Lookup(sh.content, w + s)
  {
    hide WellFormed, Stands;
    var at := LocateRel(a, T, sh, loc, w, s);
    if !at.Found() {
      assert w + s in sh.content ==> w + s <= w + s;
      return 0;
    }
    var b := At(T.cells, at.offset).base;
    if b >= 0 {
      TermSlot(a, T, sh, at, w + s);
      var nPos := b + a.term - a.off;
      return if At(T.cells, nPos).check != at.offset then 0 else -At(T.cells, nPos).base;
    }
    LeafBounds(a, T, sh, at.offset, at.tailPos, w + s);
    WholeTail(a, T, sh, at, w + s);
    return if T.refs[-1 - b].size == at.tailPos then -b else 0;
  }

  lemma TermSlot(a: Alphabet, T: Table, sh: Shape, loc: Locus, w: Str)
    requires WellFormed(a, T, sh) && Stands(a, T, sh, loc, w) && !Leaf(T.cells, loc.offset)
    ensures var p := Slot(a, T.cells, loc.offset, a.term);
      Lookup(sh.content, w) == if At(T.cells, p).check == loc.offset then -At(T.cells, p).base else 0
  {
    InnerPathLegal(a, T, sh, loc.offset);
    if At(T.cells, Slot(a, T.cells, loc.offset, a.term)).check == loc.offset {
      TermChild(a, T, sh, loc.offset, w);
    } else {
      NoChildNoKey(a, T, sh, loc.offset, w);
    }
  }

  lemma WholeTail(a: Alphabet, T: Table, sh: Shape, loc: Locus, w: Str)
    requires WellFormed(a, T, sh) && Stands(a, T, sh, loc, w) && Leaf(T.cells, loc.offset)
    ensures Lookup(sh.content, w) ==
      if loc.tailPos == |Text(T, -1 - At(T.cells, loc.offset).base)| then -At(T.cells, loc.offset).base else 0
  {
    var p := loc.offset;
    var text := Text(T, -1 - At(T.cells, p).base);
    LeafDecides(a, T, sh, p, w);
    assert Rest(w, |sh.path[p]|) == text[..loc.tailPos];
  }

  method Find(a: Alphabet, T: Table, ghost sh: Shape, s: Str) returns (r: int)
    requires WellFormed(a, T, sh) && Emitted(a)
    ensures r == Lookup(sh.content, s)
  {
    assert [] + s == s;
    RootFacts(a, T, sh);
    r := FindRel(a, T, sh, ROOT, [], s);
  }
}
