/** find of utils/nomenclate.cpp as a function of the table, and what it answers on a well-formed one. */
module TrieSearch {
  import opened DoubleArray
  import opened TrieUpdates

  /** The character a walk looks for next. */
  function Next(a: Alphabet, s: Str): int { if s == [] then a.term else s[0] }

  /** What find answers from cell `q` on with `s` left to read, for any table. */
  function SearchAt(a: Alphabet, T: Table, q: int, s: Str): int
    decreases |s|
  {
    var p := Slot(a, T.cells, q, Next(a, s));
    if At(T.cells, p).check != q then 0
    else if Leaf(T.cells, p) then LeafNumber(T, p, s)
    else if s == [] then 0 else SearchAt(a, T, p, s[1..])
  }

  /** One step of a search. */
  lemma SearchStep(a: Alphabet, T: Table, q: int, s: Str, p: int)
    requires p == Slot(a, T.cells, q, Next(a, s))
    ensures At(T.cells, p).check != q ==> SearchAt(a, T, q, s) == 0
    ensures At(T.cells, p).check == q && !Leaf(T.cells, p) ==> SearchAt(a, T, q, s) == if s == [] then 0 else SearchAt(a, T, p, s[1..])
    ensures At(T.cells, p).check == q && Leaf(T.cells, p) ==> SearchAt(a, T, q, s) == LeafNumber(T, p, s)
  {
  }

  /** The number a leaf names, if the rest of the text after its own character is the tail. */
  function LeafNumber(T: Table, p: int, s: Str): int {
    if s == [] || s[1..] == Text(T, -1 - At(T.cells, p).base) then -At(T.cells, p).base else 0
  }

  /** A text with its first `k` characters read. */
  lemma ReadOne(s: Str, k: nat)
    requires k <= |s|
    ensures k == |s| ==> s[k..] == [] && s[..k] == s
    ensures k < |s| ==> s[k..] != [] && s[k..][0] == s[k] && s[k..][1..] == s[k + 1..] && s[..k] + [s[k]] == s[..k + 1]
  {
  }

  lemma ReadNone(s: Str)
    ensures s[0..] == s && s[..0] == []
  {
  }

  function Search(a: Alphabet, T: Table, s: Str): int { SearchAt(a, T, 0, s) }

  /** Every key of `content` is found under its number. */
  ghost predicate FindsAll(a: Alphabet, T: Table, content: map<Str, int>) {
    forall k {:trigger Search(a, T, k)} :: k in content ==> Search(a, T, k) == content[k]
  }

  // ---------------------------------------------------------------- what it means on a well-formed table

  function Lookup(content: map<Str, int>, s: Str): int { if s in content then content[s] else 0 }

  /** A stored key with the terminator behind it, when the cells spell the terminator too. */
  ghost predicate WithTerm(a: Alphabet, sh: Shape, s: Str) {
    && |s| > 0 && s[|s| - 1] == a.term
    && var o := s[..|s| - 1]; o in sh.content && o in sh.home && sh.home[o] in sh.path && sh.path[sh.home[o]] == s
  }

  /** The number of a key. */
  ghost function Answer(a: Alphabet, sh: Shape, s: Str): int {
    if s in sh.content then sh.content[s] else if WithTerm(a, sh, s) then sh.content[s[..|s| - 1]] else 0
  }

  function DropLead(s: Str, c: int): Str { if s != [] && s[0] == c then DropLead(s[1..], c) else s }

  /** The character whose slot under the root is the root itself. */
  function RootChar(a: Alphabet, t: seq<Cell>): int { a.off - At(t, 0).base }

  lemma InnerPathLegal(a: Alphabet, T: Table, sh: Shape, n: int)
    requires WellFormed(a, T, sh) && n in sh.path && !Leaf(T.cells, n)
    ensures a.Legal(sh.path[n])
  {
    if n != 0 {
      assert CellOk(a, T, sh, n) && KeyOk(a, T, sh, sh.owner[n]);
      assert sh.path[n] <= sh.owner[n];
    }
  }

  /** No child for the next character: the text is no key, with or without its terminator. */
  lemma NoChildNoAnswer(a: Alphabet, T: Table, sh: Shape, q: int, k: nat, s: Str)
    requires WellFormed(a, T, sh) && q in sh.path && !Leaf(T.cells, q) && k <= |s| && sh.path[q] == s[..k]
    requires At(T.cells, Slot(a, T.cells, q, Next(a, s[k..]))).check != q
    ensures Answer(a, sh, s) == 0
  {
    NoChildNoKey(a, T, sh, q, s);
    if WithTerm(a, sh, s) {
      var h := sh.home[s[..|s| - 1]];
      assert KeyOk(a, T, sh, s[..|s| - 1]);
      if k == |s| {
        PathInjective(a, T.cells, sh.path, q, h);
      } else {
        var c := Ancestor(a, T.cells, sh.path, h, k + 1);
        assert sh.path[c] == sh.path[q] + [s[k]];
        ChildAtSlot(a, T.cells, sh.path, q, s[k], c);
      }
    }
  }

  /** At a leaf on the way to `s`, comparing the rest with the tail gives the number or 0. */
  lemma LeafAnswers(a: Alphabet, T: Table, sh: Shape, p: int, s: Str, k: nat)
    requires WellFormed(a, T, sh) && p in sh.path && p != 0 && Leaf(T.cells, p) && k <= |s| && sh.path[p] == s[..k]
    ensures Answer(a, sh, s) == if s[k..] == Text(T, -1 - At(T.cells, p).base) then -At(T.cells, p).base else 0
  {
    LeafRef(a, T, sh, p);
    assert CellOk(a, T, sh, p);
    var o := sh.owner[p];
    assert KeyOk(a, T, sh, o);
    hide WellFormed;
    if WithTerm(a, sh, s) { WithTermAtLeaf(a, T, sh, p, s); }
    if a.term !in s {
      LeafDecides(a, T, sh, p, s);
    } else {
      TermLeaf(a, T, sh, p, s, k);
    }
  }

  lemma TermInNoKey(a: Alphabet, T: Table, sh: Shape, s: Str)
    requires WellFormed(a, T, sh)
    ensures s in sh.content ==> a.term !in s
  {
    if s in sh.content { assert KeyOk(a, T, sh, s); }
  }

  lemma WithTermAtLeaf(a: Alphabet, T: Table, sh: Shape, p: int, s: Str)
    requires WellFormed(a, T, sh) && p in sh.path && p != 0 && Leaf(T.cells, p) && sh.path[p] <= s && WithTerm(a, sh, s)
    ensures p in sh.owner && s == sh.owner[p] + [a.term] && sh.path[p] == s && s !in sh.content && a.term in s
  {
    var o := s[..|s| - 1];
    assert KeyOk(a, T, sh, o);
    LeafEndsPath(a, T.cells, sh.path, p, sh.home[o]);
    TermInNoKey(a, T, sh, s);
  }

  lemma TermLeaf(a: Alphabet, T: Table, sh: Shape, p: int, s: Str, k: nat)
    requires WellFormed(a, T, sh) && p in sh.path && p != 0 && Leaf(T.cells, p) && k <= |s| && sh.path[p] == s[..k]
    requires a.term in s
    ensures p in sh.owner && s !in sh.content
    ensures s[k..] == Text(T, -1 - At(T.cells, p).base) <==> WithTerm(a, sh, s)
    ensures WithTerm(a, sh, s) ==> sh.content[s[..|s| - 1]] == -At(T.cells, p).base
  {
    assert CellOk(a, T, sh, p);
    var o := sh.owner[p];
    assert KeyOk(a, T, sh, o);
    TermInNoKey(a, T, sh, s);
    if WithTerm(a, sh, s) {
      WithTermAtLeaf(a, T, sh, p, s);
      assert s[..|s| - 1] == o;
    }
    if s[k..] == Rest(o, k) {
      RestEqual(s, o, k, a.term);
      assert s != o;
      assert (o + [a.term])[..|o|] == o;
    }
  }

  lemma RestEqual(s: Str, o: Str, k: nat, term: int)
    requires k <= |s| && s[..k] <= o + [term] && s[k..] == Rest(o, k)
    ensures s == o || s == o + [term]
  {
    assert s == s[..k] + s[k..];
    if k <= |o| { assert s[..k] == o[..k] && o == o[..k] + o[k..]; }
  }

  /** A child that is not the root in disguise. */
  lemma NextIsChild(a: Alphabet, T: Table, sh: Shape, q: int, ch: int)
    requires WellFormed(a, T, sh) && q in sh.path && !Leaf(T.cells, q)
    requires At(T.cells, Slot(a, T.cells, q, ch)).check == q && (q == 0 ==> ch != RootChar(a, T.cells))
    ensures var p := Slot(a, T.cells, q, ch); p in sh.path && p != 0 && sh.path[p] == sh.path[q] + [ch]
  {
    assert Used(T.cells, q);
    SlotIsChild(a, T.cells, sh.path, q, ch);
  }

  /** From a cell on the way to `s`, find answers with the number of `s`. */
  lemma {:induction false} AnswerBelow(a: Alphabet, T: Table, sh: Shape, q: int, s: Str, k: nat)
    requires WellFormed(a, T, sh) && q in sh.path && !Leaf(T.cells, q) && k <= |s| && sh.path[q] == s[..k]
    requires q == 0 && s != [] ==> s[0] != RootChar(a, T.cells)
    ensures SearchAt(a, T, q, s[k..]) == Answer(a, sh, s)
    decreases |s| - k
  {
    var ch := Next(a, s[k..]);
    var p := Slot(a, T.cells, q, ch);
    InnerPathLegal(a, T, sh, q);
    RootFacts(a, T, sh);
    TermIsCode(a, T, sh);
    hide WellFormed, Answer, SearchAt, At, RootChar;
    ReadOne(s, k);
    SearchStep(a, T, q, s[k..], p);
    if At(T.cells, p).check != q {
      NoChildNoAnswer(a, T, sh, q, k, s);
    } else {
      if q == 0 { RootPath(a, T, sh, k, s); }
      NextIsChild(a, T, sh, q, ch);
      if k == |s| {
        WholeKey(a, T, sh, q, s);
      } else if Leaf(T.cells, p) {
        LeafAnswers(a, T, sh, p, s, k + 1);
      } else {
        AnswerBelow(a, T, sh, p, s, k + 1);
      }
    }
  }

  lemma TermIsCode(a: Alphabet, T: Table, sh: Shape)
    requires WellFormed(a, T, sh)
    ensures a.term != RootChar(a, T.cells)
  {
  }

  lemma RootPath(a: Alphabet, T: Table, sh: Shape, k: nat, s: Str)
    requires WellFormed(a, T, sh) && k <= |s| && sh.path[0] == s[..k]
    ensures k == 0
  {
  }

  /** At the end of the text its terminator leads to the leaf of the key. */
  lemma WholeKey(a: Alphabet, T: Table, sh: Shape, q: int, s: Str)
    requires WellFormed(a, T, sh) && q in sh.path && !Leaf(T.cells, q) && sh.path[q] == s && a.Legal(s)
    requires At(T.cells, Slot(a, T.cells, q, a.term)).check == q
    ensures SearchAt(a, T, q, []) == Answer(a, sh, s)
  {
    TermChild(a, T, sh, q, s);
  }

  /** On a well-formed table find answers every string with its number, or 0.  A leading character whose code cancels the
    * root's base leads back to the root, which passes for its own child: such characters are skipped. */
  lemma {:induction false} SearchIsAnswer(a: Alphabet, T: Table, sh: Shape, s: Str)
    requires WellFormed(a, T, sh)
    ensures Search(a, T, s) == Answer(a, sh, DropLead(s, RootChar(a, T.cells)))
  {
    RootFacts(a, T, sh);
    if s != [] && s[0] == RootChar(a, T.cells) {
      assert Slot(a, T.cells, 0, s[0]) == 0;
      SearchIsAnswer(a, T, sh, s[1..]);
    } else {
      assert s[0..] == s;
      AnswerBelow(a, T, sh, 0, s, 0);
    }
  }

  /** Over the alphabet find answers with the number of the key. */
  lemma SearchIsLookup(a: Alphabet, T: Table, sh: Shape, s: Str)
    requires WellFormed(a, T, sh) && a.Legal(s)
    ensures Search(a, T, s) == Lookup(sh.content, s)
  {
    SearchIsAnswer(a, T, sh, s);
    if s != [] {
      assert s[0] in s && s[|s| - 1] in s;
      RootFacts(a, T, sh);
    }
  }

  lemma WellFormedFinds(a: Alphabet, T: Table, sh: Shape)
    requires WellFormed(a, T, sh)
    ensures FindsAll(a, T, sh.content)
  {
    forall k | k in sh.content ensures Search(a, T, k) == sh.content[k] {
      assert KeyOk(a, T, sh, k);
      SearchIsLookup(a, T, sh, k);
    }
  }
}
