/** fixed_map of utils/nomenclate.cpp: the trie builder that grows and repacks its arrays in place. */
module FixedMap {
  import opened DoubleArray
  import opened TrieUpdates
  import opened TrieSearch
  import opened TrieAppend
  import opened NameTable

  class Builder {
    var baseRef: seq<Cell>
    var tail: Str
    var tailRef: seq<TailRef>
    const alphabet: Alphabet

    /** What the arrays hold, as long as no append has stranded a key. */
    ghost var shape: Shape

    function Arrays(): Table
      reads this
    {
      Table(baseRef, tail, tailRef)
    }

    /** No access leaves the arrays. */
    ghost predicate Usable()
      reads this
    {
      Sound(alphabet, Arrays())
    }

    /** The arrays hold what `shape` says. */
    ghost predicate Valid()
      reads this
    {
      Usable() && WellFormed(alphabet, Arrays(), shape)
    }

    constructor (alphabet: Alphabet)
      requires alphabet.Valid()
      ensures Valid() && this.alphabet == alphabet && shape.content == map[] && Arrays() == EMPTY
    {
      this.alphabet := alphabet;
      baseRef, tail, tailRef := [Cell(0, 0)], [], [];
      shape := Shape(map[0 := []], map[], map[], map[], map[]);
      new;
      EmptyTable(alphabet);
    }

    method AppendLeaf(rest: Str) returns (leaf: int)
      requires Usable() && Coded(alphabet, rest)
      modifies this`tail, this`tailRef
      ensures Usable() && Arrays() == WithText(old(Arrays()), rest) && leaf == -|tailRef|
    {
      TextSound(alphabet, Arrays(), rest);
      var r := TailRef(0, |rest|);
      if r.size != 0 {
        r := TailRef(|tail|, |rest|);
        tail := tail + rest;
      }
      tailRef := tailRef + [r];
      leaf := -|tailRef|;
    }

    /** The first vacant cell from `first` on; the array grows when there is none. */
    method GetVacant(first: int) returns (pos: int)
      requires first >= 0
      modifies this`baseRef
      ensures Extends(old(baseRef), baseRef)
      ensures first <= pos < |baseRef| && !Used(baseRef, pos)
      ensures forall p :: first <= p < pos ==> Used(baseRef, p)
    {
      pos := first;
      while pos < |baseRef|
        invariant first <= pos
        invariant forall p :: first <= p < pos ==> Used(baseRef, p)
      {
        if baseRef[pos].check < 0 { return; }
        pos := pos + 1;
      }
      baseRef := baseRef + seq(pos + 1 - |baseRef|, _ => VACANT);
      assert Extends(old(baseRef), baseRef);
      forall p | first <= p < pos ensures Used(baseRef, p) {
        assert Used(old(baseRef), p);
      }
    }

    /** The least base under which every code of the set falls on a vacant cell. */
    method GetVacantSet(codes: seq<int>) returns (base: int)
      requires |codes| > 0 && forall i :: 0 <= i < |codes| ==> 0 < codes[0] <= codes[i]
      modifies this`baseRef
      ensures Extends(old(baseRef), baseRef)
      ensures base >= 0 && forall i :: 0 <= i < |codes| ==> base + codes[i] < |baseRef| && !Used(baseRef, base + codes[i])
      ensures forall b {:trigger Blocked(old(baseRef), codes, b)} :: 0 <= b < base ==> Blocked(old(baseRef), codes, b)
    {
      var pos := GetVacant(codes[0]);
      base := pos - codes[0];
      BlockedBelow(old(baseRef), baseRef, codes, 0, base);
      while true
        invariant Extends(old(baseRef), baseRef) && base >= 0
        invariant base + codes[0] < |baseRef| && !Used(baseRef, base + codes[0])
        invariant forall b {:trigger Blocked(old(baseRef), codes, b)} :: 0 <= b < base ==> Blocked(old(baseRef), codes, b)
        decreases |old(baseRef)| - base
      {
        var i := 1;
        while i < |codes|
          invariant 1 <= i <= |codes| && Extends(old(baseRef), baseRef)
          invariant forall j :: 0 <= j < i ==> base + codes[j] < |baseRef| && !Used(baseRef, base + codes[j])
        {
          var v := GetVacant(base + codes[i]);
          if v != base + codes[i] {
            assert Used(baseRef, base + codes[i]);
            break;
          }
          i := i + 1;
        }
        if i == |codes| { return; }
        assert Used(old(baseRef), base + codes[i]) && Blocked(old(baseRef), codes, base);
        pos := GetVacant(codes[0] + base + 1);
        BlockedBelow(old(baseRef), baseRef, codes, base + 1, pos - codes[0]);
        base := pos - codes[0];
      }
    }

    method UpdateChildren(base: int, oldPos: int, newPos: int)
      requires oldPos >= 0
      modifies this`baseRef
      ensures |baseRef| == old(|baseRef|)
      ensures forall x :: At(baseRef, x) == ChildTold(alphabet, old(baseRef), base, oldPos, newPos, x)
    {
      var c := 1;
      while c <= alphabet.cnt
        invariant |baseRef| == old(|baseRef|)
        invariant forall x :: x - base < c ==> At(baseRef, x) == ChildTold(alphabet, old(baseRef), base, oldPos, newPos, x)
        invariant forall x :: x - base >= c ==> At(baseRef, x) == At(old(baseRef), x)
        decreases alphabet.cnt - c
      {
        if At(baseRef, base + c).check == oldPos {
          baseRef := baseRef[base + c := Cell(baseRef[base + c].base, newPos)];
        }
        c := c + 1;
      }
    }

    /** Moves one child, tells its own children, and frees the old cell. */
    method MoveChild(lPos: int, nPos: int)
      requires 0 <= lPos < |baseRef| && 0 <= nPos < |baseRef| && lPos != nPos
      modifies this`baseRef
      ensures |baseRef| == old(|baseRef|)
      ensures forall x :: At(baseRef, x) == OneMoved(alphabet, old(baseRef), lPos, nPos, x)
    {
      baseRef := baseRef[nPos := baseRef[lPos]];
      ghost var copied := baseRef;
      assert forall x :: At(copied, x) == if x == nPos then At(old(baseRef), lPos) else At(old(baseRef), x);
      if baseRef[lPos].base >= 0 {
        UpdateChildren(baseRef[lPos].base, lPos, nPos);
      }
      ghost var told := baseRef;
      assert At(copied, lPos).base == At(old(baseRef), lPos).base;
      assert forall x :: x != lPos ==> At(told, x) == OneMoved(alphabet, old(baseRef), lPos, nPos, x);
      baseRef := baseRef[lPos := VACANT];
      assert forall x :: x != lPos ==> At(baseRef, x) == At(told, x);
    }

    /** Codes of the children of `parent` that the scan meets, the code `nChar` of the new child among them. */
    method ChildCodes(parent: int, nChar: int) returns (codes: seq<int>, nCharPos: nat)
      requires parent >= 0 && nChar >= 1 && !ChildAt(baseRef, parent, nChar)
      ensures nCharPos < |codes| && codes[nCharPos] == nChar
      ensures forall i, j :: 0 <= i < j < |codes| ==> 0 < codes[i] < codes[j]
      ensures forall i :: 0 <= i < |codes| && i != nCharPos ==> codes[i] in Seen(alphabet, baseRef, parent, nChar)
      ensures forall c :: c in Seen(alphabet, baseRef, parent, nChar) ==> c in codes
      ensures 0 < codes[0]
    {
      var base := At(baseRef, parent).base;
      ghost var S := Seen(alphabet, baseRef, parent, nChar);
      CollectNone(S, nChar);
      codes := ScanChildren([], parent, nChar, 1, nChar, -1);
      nCharPos := |codes|;
      CollectNew(codes, S, nChar);
      var xCharCnt := if |baseRef| - base < alphabet.cnt + alphabet.off then |baseRef| - base else alphabet.cnt + alphabet.off;
      codes := ScanChildren(codes + [nChar], parent, nChar, nChar + 1, xCharCnt, nCharPos);
      ghost var c := if xCharCnt > nChar then xCharCnt else nChar + 1;
      ScanEnd(alphabet, baseRef, parent, nChar, c);
      hide Seen, Collected, At;
      CollectedAll(codes, S, nCharPos, nChar, c);
    }

    /** One pass over the slots of `parent`: adds the codes of its children among `from`..`to`. */
    method ScanChildren(before: seq<int>, parent: int, nChar: int, from: int, to: int, ghost j: int) returns (codes: seq<int>)
      requires from >= 1 && j < |before| && (from <= to ==> to <= nChar || to <= alphabet.cnt + alphabet.off)
      requires Collected(before, Seen(alphabet, baseRef, parent, nChar), j, nChar, from)
      ensures Collected(codes, Seen(alphabet, baseRef, parent, nChar), j, nChar, if from <= to then to else from)
      ensures |codes| >= |before|
    {
      hide Seen, Collected;
      var base := At(baseRef, parent).base;
      ghost var S := Seen(alphabet, baseRef, parent, nChar);
      codes := before;
      var c := from;
      while c < to
        invariant from <= c && (c <= to || c == from) && |codes| >= |before|
        invariant Collected(codes, S, j, nChar, c)
      {
        ScanAt(alphabet, baseRef, parent, nChar, c);
        CollectNext(codes, S, j, nChar, c);
        if At(baseRef, base + c).check == parent { codes := codes + [c]; }
        c := c + 1;
      }
    }

    /** Moves the children with the given codes; the cell `w` of the new child is not disturbed. */
    method MoveChildren(codes: seq<int>, base: int, nBase: int,
                        ghost t: seq<Cell>, ghost parent: int, ghost D: set<int>, ghost E: set<int>, ghost w: int)
      requires AllMayMove(alphabet, t, parent, nBase, D) && base == At(t, parent).base
      requires MovePlan(codes, D, E, base, nBase, |baseRef|)
      requires forall x :: x != w ==> At(baseRef, x) == MovedCell(alphabet, t, base, nBase, E, x)
      requires w - base !in D && w - nBase !in D && At(baseRef, w).check - base !in D
      modifies this`baseRef
      ensures |baseRef| == old(|baseRef|) && At(baseRef, w) == At(old(baseRef), w)
      ensures forall x :: x != w ==> At(baseRef, x) == MovedCell(alphabet, t, base, nBase, E + Elems(codes), x)
    {
      var k := 0;
      ghost var F := E;
      while k < |codes|
        invariant 0 <= k <= |codes| && |baseRef| == old(|baseRef|) && E <= F <= D
        invariant F == E + Elems(codes[..k])
        invariant forall i :: k <= i < |codes| ==> codes[i] !in F
        invariant At(baseRef, w) == At(old(baseRef), w)
        invariant forall x :: x != w ==> At(baseRef, x) == MovedCell(alphabet, t, base, nBase, F, x)
      {
        var c := codes[k];
        ghost var u := baseRef;
        assert MayMove(alphabet, t, parent, nBase, c);
        MoveChild(base + c, nBase + c);
        forall x | x != w ensures At(baseRef, x) == MovedCell(alphabet, t, base, nBase, F + {c}, x) {
          MoveStep(alphabet, t, parent, nBase, D, F, c, u, baseRef, x);
        }
        assert codes[..k + 1] == codes[..k] + [c];
        F := F + {c};
        k := k + 1;
      }
      assert codes[..k] == codes;
    }

    /** The codes to move and the base to move them to. */
    method FindRoom(parent: int, nChar: int) returns (codes: seq<int>, nCharPos: nat, nBase: int)
      requires NoSelf(baseRef) && parent >= 0 && At(baseRef, parent).base >= 0 && nChar >= 1
      requires Used(baseRef, At(baseRef, parent).base + nChar) && !ChildAt(baseRef, parent, nChar)
      modifies this`baseRef
      ensures Extends(old(baseRef), baseRef) && NewBase(alphabet, old(baseRef), parent, nChar, nBase)
      ensures nCharPos < |codes| && codes[nCharPos] == nChar
      ensures forall i, j :: 0 <= i < j < |codes| ==> codes[i] != codes[j]
      ensures var D := Seen(alphabet, baseRef, parent, nChar);
        && D == Seen(alphabet, old(baseRef), parent, nChar) && AllMayMove(alphabet, baseRef, parent, nBase, D)
        && nChar !in D && nBase + nChar - At(baseRef, parent).base !in D
        && (forall i :: 0 <= i < |codes| && i != nCharPos ==> codes[i] in D) && forall c :: c in D ==> c in codes
      ensures forall i :: 0 <= i < |codes| ==> At(baseRef, parent).base + codes[i] < |baseRef| && nBase + codes[i] < |baseRef|
    {
      codes, nCharPos := ChildCodes(parent, nChar);
      nBase := GetVacantSet(codes);
      SameSeen(alphabet, old(baseRef), baseRef, parent, nChar);
      hide Seen;
      RoomFacts(alphabet, old(baseRef), baseRef, parent, nChar, codes, nCharPos, nBase);
    }

    /** Moves the children before and after the new one, which is written in between. */
    method MoveAround(parent: int, codes: seq<int>, nCharPos: nat, base: int, nBase: int, leaf: int, ghost D: set<int>)
      requires nCharPos < |codes| && base == At(baseRef, parent).base && AllMayMove(alphabet, baseRef, parent, nBase, D)
      requires forall i, j :: 0 <= i < j < |codes| ==> codes[i] != codes[j]
      requires var w := nBase + codes[nCharPos]; 0 <= w < |baseRef| && w - base !in D && At(baseRef, w).check - base !in D
      requires codes[nCharPos] !in D && parent - base !in D
      requires (forall i :: 0 <= i < |codes| && i != nCharPos ==> codes[i] in D) && forall c :: c in D ==> c in codes
      requires forall i :: 0 <= i < |codes| ==> base + codes[i] < |baseRef| && nBase + codes[i] < |baseRef|
      modifies this`baseRef
      ensures |baseRef| == old(|baseRef|) && At(baseRef, nBase + codes[nCharPos]) == Cell(leaf, parent)
      ensures forall x :: x != nBase + codes[nCharPos] ==> At(baseRef, x) == MovedCell(alphabet, old(baseRef), base, nBase, D, x)
    {
      hide AllMayMove, MovedCell, Used, Elems, MovePlan, At;
      ghost var t := baseRef;
      var w := nBase + codes[nCharPos];
      NothingMoved(alphabet, t, base, nBase);
      ElemsAround(codes, nCharPos, D);
      PlansAround(codes, nCharPos, D, base, nBase, |baseRef|);
      MoveChildren(codes[..nCharPos], base, nBase, t, parent, D, {}, w);
      AtUpdate(baseRef, w, Cell(leaf, parent));
      baseRef := baseRef[w := Cell(leaf, parent)];
      MoveChildren(codes[nCharPos + 1..], base, nBase, t, parent, D, Elems(codes[..nCharPos]), w);
    }

    /** Moves the children, writes the new one, and gives the parent its new base. */
    method MoveAll(parent: int, codes: seq<int>, nCharPos: nat, nBase: int, leaf: int)
      requires nCharPos < |codes| && 0 <= parent < |baseRef| && parent != nBase + codes[nCharPos]
      requires forall i, j :: 0 <= i < j < |codes| ==> codes[i] != codes[j]
      requires var D, b := Seen(alphabet, baseRef, parent, codes[nCharPos]), baseRef[parent].base;
        && AllMayMove(alphabet, baseRef, parent, nBase, D)
        && codes[nCharPos] !in D && nBase + codes[nCharPos] - b !in D && Used(baseRef, parent)
        && (forall i :: 0 <= i < |codes| && i != nCharPos ==> codes[i] in D) && forall c :: c in D ==> c in codes
      requires !Used(baseRef, nBase + codes[nCharPos])
      requires forall i :: 0 <= i < |codes| ==> baseRef[parent].base + codes[i] < |baseRef| && nBase + codes[i] < |baseRef|
      requires 0 <= nBase + codes[nCharPos]
      modifies this`baseRef
      ensures |baseRef| == old(|baseRef|)
      ensures forall x :: At(baseRef, x) == RelocatedCell(alphabet, old(baseRef), parent, codes[nCharPos], nBase, leaf, x)
    {
      ghost var t := baseRef;
      var base, nChar := baseRef[parent].base, codes[nCharPos];
      ghost var D := Seen(alphabet, t, parent, nChar);
      assert At(t, nBase + nChar).check - base !in D && parent - base !in D;
      hide Seen, MovedCell, RelocatedCell;
      MoveAround(parent, codes, nCharPos, base, nBase, leaf, D);
      ghost var u := baseRef;
      baseRef := baseRef[parent := Cell(nBase, baseRef[parent].check)];
      RelocationDone(alphabet, t, u, parent, nChar, nBase, leaf);
    }

    /** Repacks the children of `parent` under a new base so that a new leaf child can join them. */
    method Relocate(pos: int, parent: int, leaf: int)
      requires NoSelf(baseRef) && Used(baseRef, parent) && At(baseRef, parent).base >= 0
      requires Used(baseRef, pos) && pos - At(baseRef, parent).base >= 1 && At(baseRef, pos).check != parent
      modifies this`baseRef
      ensures var nChar, nb := pos - At(old(baseRef), parent).base, At(baseRef, parent).base;
        && NewBase(alphabet, old(baseRef), parent, nChar, nb) && |old(baseRef)| <= |baseRef| && nb + nChar < |baseRef|
        && RelocatedTo(alphabet, old(baseRef), baseRef, parent, nChar, nb, leaf)
    {
      var nChar := pos - baseRef[parent].base;
      var codes, nCharPos, nBase := FindRoom(parent, nChar);
      ghost var t := baseRef;
      assert At(t, parent) == At(old(baseRef), parent) && At(t, nBase + nChar) == At(old(baseRef), nBase + nChar);
      MoveAll(parent, codes, nCharPos, nBase, leaf);
      RelocatedGrown(alphabet, old(baseRef), t, baseRef, parent, nChar, nBase, leaf);
    }

    /** The least base, counted from `minCode`, under which both codes fall on vacant cells. */
    method FindPair(minCode: int, maxCode: int) returns (base: int)
      requires 1 <= minCode <= maxCode
      modifies this`baseRef
      ensures Extends(old(baseRef), baseRef) && base >= 0
      ensures base + maxCode < |baseRef| && !Used(baseRef, base + minCode) && !Used(baseRef, base + maxCode)
      ensures forall p {:trigger PairTaken(old(baseRef), p, minCode, maxCode)} ::
        minCode <= p < base + minCode ==> PairTaken(old(baseRef), p, minCode, maxCode)
    {
      var pos := minCode;
      while true
        invariant minCode <= pos && Extends(old(baseRef), baseRef)
        invariant forall p {:trigger PairTaken(old(baseRef), p, minCode, maxCode)} ::
          minCode <= p < pos ==> PairTaken(old(baseRef), p, minCode, maxCode)
        decreases |old(baseRef)| - pos
      {
        ghost var from := pos;
        pos := GetVacant(pos);
        forall p {:trigger PairTaken(old(baseRef), p, minCode, maxCode)} | from <= p < pos ensures PairTaken(old(baseRef), p, minCode, maxCode) {
          assert Used(baseRef, p) && Used(old(baseRef), p);
        }
        var maxPos := pos + maxCode - minCode;
        var v := GetVacant(maxPos);
        if maxPos == v { break; }
        assert Used(baseRef, maxPos) && Used(old(baseRef), maxPos);
        assert PairTaken(old(baseRef), pos, minCode, maxCode);
        pos := pos + 1;
      }
      base := pos - minCode;
    }

    /** Hands the leaf at `pos` one character down. */
    method PushDown(pos: int) returns (nPos: int, ghost t: seq<Cell>)
      requires Usable() && pos > 0 && IsLeaf(Arrays(), pos) && Used(baseRef, pos) && tailRef[-1 - baseRef[pos].base].size > 0
      modifies this`baseRef, this`tailRef
      ensures Usable() && Pushed(alphabet, old(Arrays()), pos, t, nPos, Arrays())
      ensures nPos > 0 && IsLeaf(Arrays(), nPos) && Used(baseRef, nPos) && baseRef[nPos].base == old(baseRef[pos].base)
      ensures |tailRef| == old(|tailRef|) && tail == old(tail)
      ensures var cur := -1 - old(baseRef[pos].base); tailRef[cur].size == old(tailRef[cur].size) - 1
    {
      ghost var T := Arrays();
      var cur := -1 - baseRef[pos].base;
      var r := tailRef[cur];
      var ch := tail[r.offset];
      var nIdx := ch - alphabet.off;
      assert ch in tail;
      nPos := GetVacant(nIdx);
      t := baseRef;
      assert At(t, pos) == At(T.cells, pos) && At(t, nPos) == At(T.cells, nPos);
      LeastInOld(T.cells, t, nIdx, nPos);
      baseRef := baseRef[nPos := Cell(baseRef[pos].base, pos)];
      baseRef := baseRef[pos := Cell(nPos - nIdx, baseRef[pos].check)];
      tailRef := tailRef[cur := TailRef(r.offset + 1, r.size - 1)];
      assert baseRef == PushedDown(alphabet, T.(cells := t), pos, nPos, ch).cells;
      PushedSound(alphabet, T, pos, t, nPos, Arrays());
    }

    /** Makes the leaf at `pos` the parent of its own entry and of the new leaf. */
    method SplitHere(pos: int, otherChar: int, leaf: int) returns (ghost t: seq<Cell>, ghost base: int)
      requires Usable() && pos > 0 && IsLeaf(Arrays(), pos) && Used(baseRef, pos) && alphabet.HasCode(otherChar)
      requires 0 <= -1 - leaf < |tailRef|
      modifies this`baseRef, this`tailRef
      ensures Usable() && SplitTo(alphabet, old(Arrays()), pos, otherChar, -1 - leaf, t, base, Arrays())
      ensures |tailRef| == old(|tailRef|)
    {
      ghost var T := Arrays();
      var cur := -1 - baseRef[pos].base;
      var r := tailRef[cur];
      var curChar := if r.size != 0 then tail[r.offset] else alphabet.term;
      assert r.size != 0 ==> curChar in tail;
      var lo, hi := curChar, otherChar;
      if lo > hi { lo, hi := hi, lo; }
      var b := FindPair(lo - alphabet.off, hi - alphabet.off);
      t, base := baseRef, b;
      assert At(t, pos) == At(T.cells, pos);
      LeastPairInOld(T.cells, t, lo - alphabet.off, hi - alphabet.off, b);
      WriteSplit(pos, b, curChar, otherChar, leaf);
      assert HeadOf(alphabet, T, cur) == curChar;
      SplitSound(alphabet, T, pos, otherChar, -1 - leaf, t, b, Arrays());
    }

    method WriteSplit(pos: int, base: int, curChar: int, otherChar: int, leaf: int)
      requires 0 <= pos < |baseRef| && 0 <= -1 - baseRef[pos].base < |tailRef|
      requires 0 <= base + (curChar - alphabet.off) < |baseRef| && 0 <= base + (otherChar - alphabet.off) < |baseRef|
      requires base + (otherChar - alphabet.off) != pos && base + (curChar - alphabet.off) != pos
      modifies this`baseRef, this`tailRef
      ensures Arrays() == Split(alphabet, old(Arrays()), pos, base, curChar, otherChar, -1 - leaf)
    {
      var curLeaf := baseRef[pos].base;
      var r := tailRef[-1 - curLeaf];
      baseRef := baseRef[base + (otherChar - alphabet.off) := Cell(leaf, pos)];
      baseRef := baseRef[base + (curChar - alphabet.off) := Cell(curLeaf, pos)];
      baseRef := baseRef[pos := Cell(base, baseRef[pos].check)];
      if r.size != 0 {
        tailRef := tailRef[-1 - curLeaf := TailRef(r.offset + 1, r.size - 1)];
      }
    }

    /** Turns the leaf at `first` into a chain for the `shared` characters it shares with the new string, and splits there. */
    method UnrollSuffix(first: int, shared: nat, otherChar: int, leaf: int)
      requires Usable() && first > 0 && IsLeaf(Arrays(), first) && Used(baseRef, first) && alphabet.HasCode(otherChar)
      requires shared <= tailRef[-1 - baseRef[first].base].size && 0 <= -1 - leaf < |tailRef|
      modifies this`baseRef, this`tailRef
      ensures Usable() && Unrolled(alphabet, old(Arrays()), first, shared, otherChar, -1 - leaf, Arrays())
      ensures |tailRef| == old(|tailRef|)
    {
      hide Sound, Pushed, SplitTo;
      ghost var T0 := Arrays();
      var pos, count := first, shared;
      NoChain(alphabet, T0, first);
      while count != 0
        invariant Usable() && pos > 0 && IsLeaf(Arrays(), pos) && Used(baseRef, pos) && 0 <= count <= shared
        invariant count <= tailRef[-1 - baseRef[pos].base].size && |tailRef| == |T0.refs|
        invariant ChainTo(alphabet, T0, first, shared - count, Arrays(), pos)
        decreases count
      {
        ghost var T := Arrays();
        ghost var t;
        var nPos;
        nPos, t := PushDown(pos);
        ChainOn(alphabet, T0, first, shared - count, T, pos, t, nPos, Arrays());
        count := count - 1;
        pos := nPos;
      }
      ghost var T1 := Arrays();
      ghost var t, base := SplitHere(pos, otherChar, leaf);
      assert ChainTo(alphabet, T0, first, shared, T1, pos) && SplitTo(alphabet, T1, pos, otherChar, -1 - leaf, t, base, Arrays());
    }

    /** How far the tail of the leaf at `pos` agrees with what is left of `s`. */
    method CommonLength(pos: int, s: Str, first: nat) returns (len: nat)
      requires RefsOk(Arrays()) && IsLeaf(Arrays(), pos) && first <= |s|
      ensures len == Shared(Text(Arrays(), -1 - baseRef[pos].base), s[first..])
    {
      var r := tailRef[-1 - baseRef[pos].base];
      ghost var text, rest := Text(Arrays(), -1 - baseRef[pos].base), s[first..];
      assert text == tail[r.offset..r.offset + r.size];
      len := 0;
      assert text[0..] == text && rest[0..] == rest;
      while len < r.size && first + len < |s|
        invariant len <= |text| && len <= |rest| && len + Shared(text[len..], rest[len..]) == Shared(text, rest)
      {
        assert text[len..][1..] == text[len + 1..] && rest[len..][1..] == rest[len + 1..];
        if tail[r.offset + len] != s[first + len] { break; }
        len := len + 1;
      }
    }

    /** Puts a new leaf for `rest` in the slot `pos` of `parent`. */
    method Place(pos: int, parent: int, rest: Str)
      requires Usable() && Used(baseRef, parent) && At(baseRef, parent).base >= 0
      requires pos - At(baseRef, parent).base >= 1 && At(baseRef, pos).check != parent && Coded(alphabet, rest)
      modifies this
      ensures Usable() && shape == old(shape) && PlacedTo(alphabet, old(Arrays()), parent, pos, rest, Arrays())
    {
      ghost var T := Arrays();
      var leaf := AppendLeaf(rest);
      ghost var U := Arrays();
      if Used(baseRef, pos) {
        assert NoSelf(baseRef);
        Relocate(pos, parent, leaf);
      } else {
        var v := GetVacant(pos);
        assert v == pos by { assert !Used(baseRef, pos); }
        baseRef := baseRef[pos := Cell(leaf, parent)];
        assert Put(U.cells, baseRef, pos, Cell(leaf, parent));
      }
      PlacedSound(alphabet, T, parent, pos, rest, Arrays());
    }

    /** The character at a place of `s` and what follows it, or the terminator. */
    method NextAfter(s: Str, n: nat) returns (ch: int, rest: Str)
      requires n <= |s|
      ensures if n < |s| then ch == s[n] && rest == s[n + 1..] else ch == alphabet.term && rest == []
    {
      ch, rest := alphabet.term, [];
      if n < |s| {
        ch, rest := s[n], s[n + 1..];
      }
    }

    /** Joins what is left of `s` to the leaf at `pos`. */
    method InsertAtLeaf(pos: int, s: Str, first: nat)
      requires Usable() && pos > 0 && IsLeaf(Arrays(), pos) && Used(baseRef, pos) && first <= |s| && Coded(alphabet, s) && alphabet.Valid()
      modifies this
      ensures Usable() && shape == old(shape) && JoinedTo(alphabet, old(Arrays()), pos, s[first..], Arrays())
    {
      hide Unrolled, Used, NoSelf, LeavesNamed, Text, Shared, Rest;
      ghost var T, text := Arrays(), Text(Arrays(), -1 - baseRef[pos].base);
      var shared := CommonLength(pos, s, first);
      SharedFits(T, pos, s[first..]);
      assert At(T.cells, pos) == T.cells[pos];
      hide At, Sound;
      var nChar, rest := NextAfter(s, first + shared);
      SharedNext(alphabet, s, first, shared, nChar, rest);
      var leaf := AppendLeaf(rest);
      UnrollSuffix(pos, shared, nChar, leaf);
    }

    /** Stores `s`: the arrays become what AppendedTo says, on any usable arrays. */
    method Append(s: Str)
      requires Usable() && alphabet.Legal(s)
      modifies this
      ensures Usable() && AppendedTo(alphabet, old(Arrays()), s, Arrays())
      ensures old(Valid()) && !Strands(alphabet, old(baseRef), s) ==> Valid()
      ensures old(Valid()) && !Strands(alphabet, old(baseRef), s) ==>
        shape.content == if s in old(shape.content) then old(shape.content) else old(shape.content)[s := |tailRef|]
      ensures old(Valid()) && !Strands(alphabet, old(baseRef), s) && s !in old(shape.content) ==> |tailRef| == old(|tailRef|) + 1
      ensures old(Valid()) && Strands(alphabet, old(baseRef), s) ==> shape == old(shape)
    {
      ghost var T, sh, valid := Arrays(), shape, Valid();
      AppendCells(s);
      if valid && !Strands(alphabet, T.cells, s) {
        shape := AppendedKeeps(alphabet, T, sh, s, Arrays());
      }
    }

    /** The walk of append and what it does at its end. */
    method AppendCells(s: Str)
      requires Usable() && alphabet.Legal(s)
      modifies this
      ensures Usable() && shape == old(shape) && AppendedTo(alphabet, old(Arrays()), s, Arrays())
    {
      hide PlacedTo, JoinedTo;
      ghost var T := Arrays();
      var lPos, first := 0, 0;
      assert s[0..] == s;
      while first < |s|
        invariant first <= |s| && Arrays() == T && shape == old(shape) && Usable()
        invariant Used(baseRef, lPos) && At(baseRef, lPos).base >= 0
        invariant Stop(alphabet, T.cells, lPos, s[first..]) == Stop(alphabet, T.cells, 0, s)
      {
        ReadOne(s, first);
        assert s[first] in s;
        var pos := At(baseRef, lPos).base + s[first] - alphabet.off;
        if !Used(baseRef, pos) || At(baseRef, pos).check != lPos {
          Place(pos, lPos, s[first + 1..]);
          return;
        }
        if At(baseRef, pos).base < 0 {
          LeafIsLeaf(alphabet, T, pos);
          InsertAtLeaf(pos, s, first + 1);
          return;
        }
        lPos, first := pos, first + 1;
      }
      ReadOne(s, first);
      var pos := At(baseRef, lPos).base + alphabet.term - alphabet.off;
      if !Used(baseRef, pos) || At(baseRef, pos).check != lPos {
        Place(pos, lPos, []);
      }
    }

    /** What Search says of the arrays; on valid ones that is the number of the key, or 0. */
    method Find(s: Str) returns (r: int)
      requires Usable()
      ensures r == Search(alphabet, Arrays(), s)
      ensures Valid() ==> r == Answer(alphabet, shape, DropLead(s, RootChar(alphabet, baseRef)))
    {
      hide WellFormed, Answer, SearchAt, RefsOk, DropLead;
      ghost var T := Arrays();
      if Valid() { SearchIsAnswer(alphabet, T, shape, s); }
      var lPos, first := 0, 0;
      ReadNone(s);
      while first < |s|
        invariant 0 <= first <= |s| && lPos >= 0 && SearchAt(alphabet, T, lPos, s[first..]) == Search(alphabet, T, s)
      {
        var pos := At(baseRef, lPos).base + s[first] - alphabet.off;
        ReadOne(s, first);
        SearchStep(alphabet, T, lPos, s[first..], pos);
        if At(baseRef, pos).check != lPos { return 0; }
        if baseRef[pos].base < 0 {
          r := ReadLeaf(pos, s, first + 1);
          return;
        }
        lPos, first := pos, first + 1;
      }
      var pos := At(baseRef, lPos).base + alphabet.term - alphabet.off;
      ReadOne(s, first);
      SearchStep(alphabet, T, lPos, [], pos);
      if At(baseRef, pos).check == lPos && baseRef[pos].base < 0 { return -baseRef[pos].base; }
      return 0;
    }

    /** Compares what is left of `s` with the tail of the leaf at `pos`. */
    method ReadLeaf(pos: int, s: Str, first: nat) returns (r: int)
      requires Usable() && 0 < first <= |s| && 0 <= pos < |baseRef| && Leaf(baseRef, pos)
      ensures r == LeafNumber(Arrays(), pos, s[first - 1..])
    {
      ReadOne(s, first - 1);
      LeafIsLeaf(alphabet, Arrays(), pos);
      hide Sound;
      var rIdx := -baseRef[pos].base;
      var ref := tailRef[rIdx - 1];
      r := if s[first..] == tail[ref.offset..ref.offset + ref.size] then rIdx else 0;
    }

    /** Copies the tails in use into a new buffer, entry by entry; nothing stored changes. */
    method CompactTails()
      requires Usable()
      modifies this`tail, this`tailRef
      ensures Usable() && (old(Valid()) ==> Valid())
      ensures SameEntries(old(Arrays()), Arrays()) && EndToEnd(tailRef, |tail|) && shape == old(shape)
    {
      ghost var T, valid := Arrays(), Valid();
      assert RefsOk(T);
      hide WellFormed;
      var tVec: Str := [];
      var i := 0;
      hide Text;
      while i < |tailRef|
        invariant 0 <= i <= |tailRef| == |T.refs| && tail == T.tail && tailRef[i..] == T.refs[i..]
        invariant TextsIn(T, tVec, tailRef[..i]) && EndToEnd(tailRef[..i], |tVec|) && Coded(alphabet, tVec)
      {
        var r := tailRef[i];
        assert r == T.refs[i];
        var nPos := |tVec|;
        ghost var done := tailRef[..i];
        TextsNext(T, tVec, done, i, nPos);
        tVec := tVec + tail[r.offset..r.offset + r.size];
        tailRef := tailRef[i := TailRef(nPos, r.size)];
        assert tailRef[..i + 1] == done + [TailRef(nPos, r.size)];
        assert tailRef[..i + 1][..i] == done;
        i := i + 1;
      }
      assert tailRef[..i] == tailRef;
      tail := tVec;
      TextsAll(T, Arrays());
      if valid { NewTextKeeps(alphabet, T, Arrays(), shape); }
    }
  }

  lemma SharedFits(T: Table, p: int, rest: Str)
    requires RefsOk(T) && IsLeaf(T, p)
    ensures Shared(Text(T, -1 - T.cells[p].base), rest) <= T.refs[-1 - T.cells[p].base].size
  {
  }

  /** The character and the rest behind what is shared. */
  lemma SharedNext(a: Alphabet, s: Str, first: nat, n: nat, ch: int, rest: Str)
    requires first + n <= |s| && a.Valid() && Coded(a, s)
    requires if first + n < |s| then ch == s[first + n] && rest == s[first + n + 1..] else ch == a.term && rest == []
    ensures rest == Rest(s[first..], n + 1) && ch == Next(a, s[first..][n..]) && a.HasCode(ch) && Coded(a, rest)
  {
    if first + n < |s| { assert s[first + n] in s; }
  }

  /** The entries fill the buffer in order, without gaps. */
  ghost predicate EndToEnd(refs: seq<TailRef>, size: nat) {
    if refs == [] then size == 0
    else var r := refs[|refs| - 1]; r.offset + r.size == size && EndToEnd(refs[..|refs| - 1], r.offset)
  }

  ghost predicate TextIn(T: Table, v: Str, r: TailRef, k: int) {
    r.offset + r.size <= |v| && v[r.offset..r.offset + r.size] == Text(T, k)
  }

  /** The entries' texts stand in `v`. */
  ghost predicate TextsIn(T: Table, v: Str, refs: seq<TailRef>) {
    forall k {:trigger TextIn(T, v, refs[k], k)} :: 0 <= k < |refs| ==> TextIn(T, v, refs[k], k)
  }

  lemma TextStays(T: Table, v: Str, x: Str, r: TailRef, k: int)
    requires TextIn(T, v, r, k)
    ensures TextIn(T, v + x, r, k)
  {
    assert (v + x)[r.offset..r.offset + r.size] == v[r.offset..r.offset + r.size];
  }

  lemma TextAppended(T: Table, v: Str, i: int, nPos: nat)
    requires RefsOk(T) && 0 <= i < |T.refs| && nPos == |v|
    ensures var r := T.refs[i]; TextIn(T, v + T.tail[r.offset..r.offset + r.size], TailRef(nPos, r.size), i)
  {
    var r := T.refs[i];
    var text := T.tail[r.offset..r.offset + r.size];
    assert (v + text)[nPos..nPos + r.size] == text;
  }

  lemma TextsNext(T: Table, v: Str, refs: seq<TailRef>, i: int, nPos: nat)
    requires RefsOk(T) && TextsIn(T, v, refs) && |refs| == i < |T.refs| && nPos == |v|
    ensures var r := T.refs[i];
      r.offset + r.size <= |T.tail| && TextsIn(T, v + T.tail[r.offset..r.offset + r.size], refs + [TailRef(nPos, r.size)])
  {
    var r := T.refs[i];
    var text := T.tail[r.offset..r.offset + r.size];
    var all := refs + [TailRef(nPos, r.size)];
    hide TextIn, Text;
    TextAppended(T, v, i, nPos);
    forall k | 0 <= k < |all| ensures TextIn(T, v + text, all[k], k) {
      if k < i {
        assert TextIn(T, v, refs[k], k);
        TextStays(T, v, text, refs[k], k);
      }
    }
  }

  lemma TextsAll(T: Table, U: Table)
    requires TextsIn(T, U.tail, U.refs)
    ensures RefsOk(U) && forall k :: 0 <= k < |U.refs| ==> Text(U, k) == Text(T, k)
  {
    forall k | 0 <= k < |U.refs| ensures U.refs[k].offset + U.refs[k].size <= |U.tail| && Text(U, k) == Text(T, k) {
      assert TextIn(T, U.tail, U.refs[k], k);
    }
  }

  // ---------------------------------------------------------------- building a whole map

  ghost predicate Distinct(lines: seq<Str>) { forall i, j :: 0 <= i < j < |lines| ==> lines[i] != lines[j] }

  /** Every line is stored under its position, counted from 1, and nothing else is. */
  ghost predicate Numbered(content: map<Str, int>, lines: seq<Str>) {
    && (forall s :: s in content <==> s in lines)
    && (forall i :: 0 <= i < |lines| ==> lines[i] in content && content[lines[i]] == i + 1)
  }

  /** The alphabet of the bytes from `lo` to `hi` with a terminator below or above them. */
  function AlphabetFor(lo: int, hi: int): Alphabet {
    if lo > 1 then Alphabet(lo - 2, hi - lo + 2, lo - 1) else Alphabet(lo - 1, hi - lo + 2, hi + 1)
  }

  /** The chosen alphabet covers the bytes; the offset that relocations rely on needs `lo >= 3`. */
  lemma AlphabetForFits(lo: int, hi: int, s: Str)
    requires lo <= hi && forall ch :: ch in s ==> lo <= ch <= hi
    ensures var a := AlphabetFor(lo, hi); a.Valid() && a.Legal(s) && Emitted(a) && (a.off >= 1 <==> lo >= 3)
    ensures var a := AlphabetFor(lo, hi); a.term == (if lo > 1 then lo - 1 else hi + 1)
    ensures forall ch {:trigger AlphabetFor(lo, hi).HasCode(ch)} ::
      AlphabetFor(lo, hi).HasCode(ch) <==> lo <= ch <= hi || ch == AlphabetFor(lo, hi).term
  {
  }

  /** The tables a sequence of appends goes through. */
  ghost predicate Run(a: Alphabet, lines: seq<Str>, run: seq<Table>) {
    && |run| == |lines| + 1 && run[0] == EMPTY
    && forall i {:trigger lines[i]} :: 0 <= i < |lines| ==> AppendedTo(a, run[i], lines[i], run[i + 1])
  }

  /** No append of the run strands a key. */
  ghost predicate NothingStranded(a: Alphabet, lines: seq<Str>, run: seq<Table>)
    requires |run| == |lines| + 1
  {
    forall i {:trigger lines[i]} :: 0 <= i < |lines| ==> !Strands(a, run[i].cells, lines[i])
  }

  /** The same cells, and entries of the same texts. */
  ghost predicate SameEntries(T: Table, U: Table) {
    T.cells == U.cells && |T.refs| == |U.refs| && forall i :: 0 <= i < |T.refs| ==> Text(T, i) == Text(U, i)
  }

  lemma {:induction false} SameSearch(a: Alphabet, T: Table, U: Table, q: int, s: Str)
    requires SameEntries(T, U) && LeavesNamed(T.cells, |T.refs|)
    ensures SearchAt(a, T, q, s) == SearchAt(a, U, q, s)
    decreases |s|
  {
    var p := Slot(a, T.cells, q, Next(a, s));
    hide SearchAt, Text;
    SearchStep(a, T, q, s, p);
    SearchStep(a, U, q, s, p);
    if At(T.cells, p).check == q {
      if Leaf(T.cells, p) {
        assert 0 <= -1 - At(T.cells, p).base < |T.refs|;
      } else if s != [] {
        SameSearch(a, T, U, p, s[1..]);
      }
    }
  }

  /** Appends the lines in order, for any offset. */
  method StoreAll(lines: seq<Str>, m: Builder) returns (ghost run: seq<Table>)
    requires m.Valid() && m.Arrays() == EMPTY && m.shape.content == map[] && forall i :: 0 <= i < |lines| ==> m.alphabet.Legal(lines[i])
    modifies m
    ensures m.Usable() && Run(m.alphabet, lines, run) && run[|lines|] == m.Arrays()
    ensures NothingStranded(m.alphabet, lines, run) ==> m.Valid() && Stored(m.shape.content, lines, |m.tailRef|)
  {
    hide AppendedTo, Strands, WellFormed, Sound;
    run := [m.Arrays()];
    ghost var all := true;
    var i := 0;
    while i < |lines|
      invariant 0 <= i <= |lines| && m.Usable()
      invariant Run(m.alphabet, lines[..i], run) && run[i] == m.Arrays() && (all <==> NothingStranded(m.alphabet, lines[..i], run))
      invariant all ==> m.Valid() && Stored(m.shape.content, lines[..i], |m.tailRef|)
    {
      ghost var before, T := m.shape.content, m.Arrays();
      m.Append(lines[i]);
      RunOn(m.alphabet, lines, i, run, m.Arrays());
      run := run + [m.Arrays()];
      if all && !Strands(m.alphabet, T.cells, lines[i]) {
        OneMoreLine(lines, i, before, m.shape.content, |T.refs|, |m.tailRef|);
      } else {
        all := false;
      }
      i := i + 1;
    }
    assert lines[..i] == lines;
  }

  /** Whether each line is found under its number. */
  method CheckAll(lines: seq<Str>, m: Builder) returns (ok: bool)
    requires m.Usable()
    ensures ok <==> forall i :: 0 <= i < |lines| ==> Search(m.alphabet, m.Arrays(), lines[i]) == i + 1
  {
    var i := 0;
    while i < |lines|
      invariant 0 <= i <= |lines| && forall k :: 0 <= k < i ==> Search(m.alphabet, m.Arrays(), lines[k]) == k + 1
    {
      var n := m.Find(lines[i]);
      if n != i + 1 { return false; }
      i := i + 1;
    }
    return true;
  }

  /** Appends the lines in order, compacts the tails and checks that each line is found under its number; for any offset. */
  method Build(lines: seq<Str>, a: Alphabet) returns (m: Builder, ok: bool, ghost run: seq<Table>)
    requires a.Valid() && forall i :: 0 <= i < |lines| ==> a.Legal(lines[i])
    ensures fresh(m) && m.Usable() && m.alphabet == a
    ensures Run(a, lines, run) && SameEntries(run[|lines|], m.Arrays())
    ensures ok <==> forall i :: 0 <= i < |lines| ==> Search(a, run[|lines|], lines[i]) == i + 1
    ensures ok ==> Distinct(lines)
    ensures NothingStranded(a, lines, run) ==> m.Valid() && (ok <==> Distinct(lines)) && (ok ==> Numbered(m.shape.content, lines))
    ensures NothingStranded(a, lines, run) ==> forall s :: s in m.shape.content <==> s in lines
    ensures a.off >= 1 ==> NothingStranded(a, lines, run)
  {
    m := new Builder(a);
    run := StoreAll(lines, m);
    ghost var T, sh := m.Arrays(), m.shape;
    if NothingStranded(a, lines, run) { StoredFound(a, T, sh, lines, |T.refs|); }
    OffsetStrandsNothing(a, lines, run);
    m.CompactTails();
    forall i | 0 <= i < |lines| ensures Search(a, T, lines[i]) == Search(a, m.Arrays(), lines[i]) {
      SameSearch(a, T, m.Arrays(), 0, lines[i]);
    }
    hide Search, Run, NothingStranded, WellFormed;
    ok := CheckAll(lines, m);
  }

  /** What the keys are after some lines, none of them stranded, and how many entries have been made. */
  ghost predicate Stored(content: map<Str, int>, lines: seq<Str>, n: nat) {
    (forall s :: s in content <==> s in lines) && (Distinct(lines) ==> Numbered(content, lines) && n == |lines|)
  }

  lemma RunOn(a: Alphabet, lines: seq<Str>, i: nat, run: seq<Table>, T: Table)
    requires i < |lines| && Run(a, lines[..i], run) && AppendedTo(a, run[i], lines[i], T)
    ensures Run(a, lines[..i + 1], run + [T])
    ensures NothingStranded(a, lines[..i + 1], run + [T]) <==> NothingStranded(a, lines[..i], run) && !Strands(a, run[i].cells, lines[i])
  {
    hide AppendedTo, Strands;
    var more, longer := lines[..i + 1], run + [T];
    forall k | 0 <= k < |more| ensures AppendedTo(a, longer[k], more[k], longer[k + 1]) {
      if k < i { assert lines[..i][k] == more[k]; }
    }
    assert more[i] == lines[i];
    assert forall k :: 0 <= k < i ==> lines[..i][k] == more[k] && longer[k] == run[k];
  }

  lemma OffsetStrandsNothing(a: Alphabet, lines: seq<Str>, run: seq<Table>)
    requires |run| == |lines| + 1
    ensures a.off >= 1 ==> NothingStranded(a, lines, run)
  {
    forall i | 0 <= i < |lines| && a.off >= 1 ensures !Strands(a, run[i].cells, lines[i]) { }
  }

  lemma OneMoreLine(lines: seq<Str>, i: nat, before: map<Str, int>, after: map<Str, int>, m: nat, n: nat)
    requires i < |lines| && Stored(before, lines[..i], m)
    requires after == if lines[i] in before then before else before[lines[i] := n]
    requires lines[i] !in before ==> n == m + 1
    ensures Stored(after, lines[..i + 1], n)
  {
    assert lines[..i + 1] == lines[..i] + [lines[i]];
    if Distinct(lines[..i + 1]) {
      assert forall k, l :: 0 <= k < l < i ==> lines[..i][k] == lines[..i + 1][k] && lines[..i][l] == lines[..i + 1][l];
      forall k | 0 <= k < i ensures lines[..i][k] != lines[i] {
        assert lines[..i + 1][k] != lines[..i + 1][i];
      }
    }
  }

  /** Lines stored without loss are all found under their numbers exactly if no line comes twice. */
  lemma StoredFound(a: Alphabet, T: Table, sh: Shape, lines: seq<Str>, n: nat)
    requires WellFormed(a, T, sh) && Stored(sh.content, lines, n) && forall i :: 0 <= i < |lines| ==> a.Legal(lines[i])
    ensures Distinct(lines) <==> forall i :: 0 <= i < |lines| ==> Search(a, T, lines[i]) == i + 1
  {
    forall i | 0 <= i < |lines| ensures Search(a, T, lines[i]) == Lookup(sh.content, lines[i]) {
      SearchIsLookup(a, T, sh, lines[i]);
    }
  }
}
