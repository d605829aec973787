/** Three lines of which the third loses the first.  Their bytes are 1 and 2, so the program takes offset 0 and terminator 3,
    and the limit of the scan in utils/nomenclate.cpp:166-168 is one short of the terminator's code. */
module LostLine {
  import opened DoubleArray
  import opened TrieUpdates
  import opened TrieSearch
  import opened TrieAppend
  import opened FixedMap

  const TWO_BYTES := Alphabet(0, 3, 3)

  const LINES: seq<Str> := [[1], [1, 2], [1, 1]]

  /** The arrays agree, whatever vacant cells they end with. */
  ghost predicate Looks(t: seq<Cell>, s: seq<Cell>) { forall x {:trigger At(t, x)} :: At(t, x) == At(s, x) }

  const ONE := [Cell(0, 0), Cell(-1, 0)]

  const TWO := [Cell(0, 0), Cell(0, 0), Cell(-2, 1), Cell(-1, 1)]

  /** The first line hangs in the slot of its byte. */
  lemma FirstLine(T: Table)
    requires AppendedTo(TWO_BYTES, EMPTY, [1], T)
    ensures Looks(T.cells, ONE) && T.tail == [] && T.refs == [TailRef(0, 0)]
  {
    assert Stop(TWO_BYTES, EMPTY.cells, 0, [1]) == Halt(0, [1]);
    assert PlacedTo(TWO_BYTES, EMPTY, 0, 1, [], T);
    forall x ensures At(T.cells, x) == At(ONE, x) { }
  }

  lemma OneAt(t: seq<Cell>, x: int)
    requires Looks(t, ONE)
    ensures At(t, x) == if x == 0 then Cell(0, 0) else if x == 1 then Cell(-1, 0) else VACANT
  {
    assert At(t, x) == At(ONE, x);
  }

  /** The second line splits it: cell 1 becomes the parent of both. */
  lemma SecondLine(T: Table, T': Table)
    requires Looks(T.cells, ONE) && T.tail == [] && T.refs == [TailRef(0, 0)] && AppendedTo(TWO_BYTES, T, [1, 2], T')
    ensures Looks(T'.cells, TWO) && T'.tail == [] && T'.refs == [TailRef(0, 0), TailRef(0, 0)]
  {
    hide SplitTo, Looks, PlacedTo;
    SecondLineJoins(T, T');
    var U := WithText(T, []);
    var t, b :| SplitTo(TWO_BYTES, U, 1, 2, 1, t, b, T');
    SplitLooks(U, t, b, T');
  }

  lemma SecondLineJoins(T: Table, T': Table)
    requires Looks(T.cells, ONE) && T.tail == [] && T.refs == [TailRef(0, 0)] && AppendedTo(TWO_BYTES, T, [1, 2], T')
    ensures Unrolled(TWO_BYTES, WithText(T, []), 1, 0, 2, 1, T')
  {
    hide Unrolled, PlacedTo;
    OneAt(T.cells, 0);
    OneAt(T.cells, 1);
    assert Stop(TWO_BYTES, T.cells, 0, [1, 2]) == Halt(0, [1, 2]);
    assert [1, 2][1..] == [2] && Text(T, 0) == [] && [2][0..] == [2];
    assert Rest([2], 1) == [];
  }

  lemma SplitLooks(T: Table, t: seq<Cell>, b: int, T': Table)
    requires Looks(T.cells, ONE) && T.tail == [] && T.refs == [TailRef(0, 0), TailRef(0, 0)]
    requires SplitTo(TWO_BYTES, T, 1, 2, 1, t, b, T')
    ensures Looks(T'.cells, TWO) && T'.tail == T.tail && T'.refs == T.refs
  {
    OneAt(T.cells, 1);
    OneAt(T.cells, 2);
    OneAt(T.cells, 3);
    assert HeadOf(TWO_BYTES, T, 0) == 3;
    assert !PairTaken(T.cells, 2, 2, 3);
    assert b == 0;
    forall x ensures At(T'.cells, x) == At(TWO, x) {
      SplitAt(TWO_BYTES, T.(cells := t), 1, 0, 3, 2, 1, x);
      OneAt(T.cells, x);
      assert At(t, x) == At(T.cells, x);
    }
  }

  lemma TwoAt(t: seq<Cell>, x: int)
    requires Looks(t, TWO)
    ensures At(t, x) ==
      if x == 0 || x == 1 then Cell(0, 0) else if x == 2 then Cell(-2, 1) else if x == 3 then Cell(-1, 1) else VACANT
  {
    assert At(t, x) == At(TWO, x);
  }

  /** The third line finds the slot of its second byte taken by the cell it starts from; the scan meets the child under
    * code 2 and stops short of the one under code 3. */
  lemma ThirdLineSeen(t: seq<Cell>)
    requires Looks(t, TWO)
    ensures forall c :: c in Seen(TWO_BYTES, t, 1, 1) <==> c == 2
    ensures !AllSeen(TWO_BYTES, t, 1, 1)
  {
    TwoAt(t, 1);
    forall c {:trigger ChildAt(t, 1, c)} ensures ChildAt(t, 1, c) <==> c == 2 || c == 3 { TwoAt(t, c); }
    assert ChildAt(t, 1, 2) && ChildCode(TWO_BYTES, t, 1, 3);
  }

  /** The new base is 3. */
  lemma ThirdLineBase(t: seq<Cell>, nb: int)
    requires Looks(t, TWO) && NewBase(TWO_BYTES, t, 1, 1, nb)
    ensures nb == 3
  {
    ThirdLineSeen(t);
    TwoAt(t, nb + 1);
    TwoAt(t, 4);
    TwoAt(t, 5);
    hide Seen;
    assert !Taken(TWO_BYTES, t, 1, 1, 3);
  }

  lemma ThirdLinePlaced(T: Table, T': Table)
    requires Looks(T.cells, TWO) && AppendedTo(TWO_BYTES, T, [1, 1], T')
    ensures Strands(TWO_BYTES, T.cells, [1, 1]) && PlacedTo(TWO_BYTES, T, 1, 1, [], T')
  {
    hide PlacedTo, JoinedTo, Stop, Seen, AllSeen;
    TwoAt(T.cells, 1);
    StopTwo(T.cells);
    ThirdLineSeen(T.cells);
    assert Rest([1], 1) == [];
  }

  /** What a search for the first line meets. */
  lemma SearchFirst(T: Table)
    requires At(T.cells, 0) == Cell(0, 0) && At(T.cells, 1).check == 0 && At(T.cells, 1).base >= 0
    ensures var c := At(T.cells, At(T.cells, 1).base + 3);
      Search(TWO_BYTES, T, [1]) == if c.check == 1 && c.base < 0 then -c.base else 0
  {
    hide SearchAt;
    assert [1][1..] == [];
    SearchStep(TWO_BYTES, T, 0, [1], 1);
    SearchStep(TWO_BYTES, T, 1, [], At(T.cells, 1).base + 3);
  }

  /** After the third line, the slot of the first line's terminator is vacant: the line is not found. */
  lemma ThirdLine(T: Table, T': Table)
    requires Looks(T.cells, TWO) && AppendedTo(TWO_BYTES, T, [1, 1], T')
    ensures Strands(TWO_BYTES, T.cells, [1, 1]) && Search(TWO_BYTES, T, [1]) == 1 && Search(TWO_BYTES, T', [1]) == 0
  {
    hide AppendedTo, Strands, Search, RelocatedTo, NewBase, Looks, At;
    ThirdLinePlaced(T, T');
    TwoAt(T.cells, 0);
    TwoAt(T.cells, 1);
    TwoAt(T.cells, 3);
    ThirdLineBase(T.cells, At(T'.cells, 1).base);
    ThirdLineAfter(T.cells, T'.cells, -|T'.refs|);
    SearchFirst(T);
    SearchFirst(T');
  }

  lemma StopTwo(t: seq<Cell>)
    requires Looks(t, TWO)
    ensures Stop(TWO_BYTES, t, 0, [1, 1]) == Halt(1, [1])
  {
    TwoAt(t, 0);
    TwoAt(t, 1);
    assert [1, 1][1..] == [1];
    assert Stop(TWO_BYTES, t, 1, [1]) == Halt(1, [1]);
  }

  lemma ThirdLineAfter(t: seq<Cell>, t': seq<Cell>, leaf: int)
    requires Looks(t, TWO) && RelocatedTo(TWO_BYTES, t, t', 1, 1, 3, leaf)
    ensures At(t', 0) == Cell(0, 0) && At(t', 1) == Cell(3, 0) && At(t', 6) == VACANT
  {
    ThirdLineSeen(t);
    hide Seen;
    TwoAt(t, 0);
    TwoAt(t, 1);
    TwoAt(t, 6);
    assert RelocatedAt(TWO_BYTES, t, t', 1, 1, 3, leaf, 0) && RelocatedAt(TWO_BYTES, t, t', 1, 1, 3, leaf, 1);
    assert RelocatedAt(TWO_BYTES, t, t', 1, 1, 3, leaf, 6);
  }

  /** Three different lines over the bytes 1 and 2, in the alphabet the program chooses: the run strands the first line, and
    * the final check rejects the table. */
  lemma ThirdLineLosesFirst(run: seq<Table>)
    requires Run(TWO_BYTES, LINES, run)
    ensures AlphabetFor(1, 2) == TWO_BYTES && Distinct(LINES) && forall s :: s in LINES ==> TWO_BYTES.Legal(s)
    ensures Search(TWO_BYTES, run[2], [1]) == 1 && Search(TWO_BYTES, run[3], [1]) == 0 && !NothingStranded(TWO_BYTES, LINES, run)
    ensures !(forall i :: 0 <= i < |LINES| ==> Search(TWO_BYTES, run[3], LINES[i]) == i + 1)
  {
    hide AppendedTo, Search, Strands;
    assert LINES[0] == [1] && LINES[1] == [1, 2] && LINES[2] == [1, 1];
    FirstLine(run[1]);
    SecondLine(run[1], run[2]);
    ThirdLine(run[2], run[3]);
    LinesApart();
  }

  lemma LinesApart()
    ensures Distinct(LINES)
  {
    assert LINES[1][1] != LINES[2][1];
  }
}
