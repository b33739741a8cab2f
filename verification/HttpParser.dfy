/**
 The HTTP parser's header callbacks (http_parser.c): the header table that llhttp's callback trace
 builds up.
 */
module HttpParser {
  import opened MetaTypes

  const MAX_HEADERS := 64
  const MAX_HEADER_LENGTH := 256

  /** Header text.  llhttp passes on no NUL, so strlen in the callbacks is the length. */
  type Text = seq<Byte>

  function Cut(t: Text): Text {
    if |t| <= MAX_HEADER_LENGTH then t else t[..MAX_HEADER_LENGTH]
  }

  // ---------- header callbacks on values ----------

  datatype Pair = Pair(name: Text, value: Text)

  /** The header table with the slot being filled at index count. */
  datatype Table = Table(slots: seq<Pair>, count: nat, current: Text, inValue: bool)

  predicate ValidTable(t: Table) {
    |t.slots| == MAX_HEADERS && t.count <= MAX_HEADERS
  }

  function OnField(t: Table, data: Text): (r: Table)
    requires ValidTable(t)
    ensures ValidTable(r)
  {
    Table(t.slots, if t.inValue && t.count < MAX_HEADERS then t.count + 1 else t.count, Cut(data), false)
  }

  /** Append to a value, keeping the first 256 bytes. */
  function Extend(v: Text, data: Text): Text {
    v + (if |v| > MAX_HEADER_LENGTH then []
         else if |data| < MAX_HEADER_LENGTH - |v| then data else data[..MAX_HEADER_LENGTH - |v|])
  }

  function OnValue(t: Table, data: Text): (r: Table)
    requires ValidTable(t)
    ensures ValidTable(r)
  {
    if t.count >= MAX_HEADERS then t
    else
      var open := t.slots[t.count];
      var p := if t.inValue then Pair(open.name, Extend(open.value, data)) else Pair(t.current, Extend([], data));
      Table(t.slots[t.count := p], t.count, t.current, true)
  }

  function OnComplete(t: Table): (r: Table)
    requires ValidTable(t)
    ensures ValidTable(r)
  {
    t.(count := if t.inValue && t.count < MAX_HEADERS then t.count + 1 else t.count)
  }

  // ---------- traces ----------

  /** One header as llhttp reports it: its name in one or more pieces, its value in any number of chunks. */
  datatype Header = Header(pieces: seq<Text>, chunks: seq<Text>)

  ghost predicate Named(hs: seq<Header>) {
    forall i :: 0 <= i < |hs| ==> hs[i].pieces != []
  }

  function Join(chunks: seq<Text>): Text {
    if chunks == [] then [] else Join(chunks[..|chunks| - 1]) + chunks[|chunks| - 1]
  }

  function OnValues(t: Table, chunks: seq<Text>): (r: Table)
    requires ValidTable(t)
    ensures ValidTable(r)
  {
    if chunks == [] then t else OnValue(OnValues(t, chunks[..|chunks| - 1]), chunks[|chunks| - 1])
  }

  function OnFields(t: Table, pieces: seq<Text>): (r: Table)
    requires ValidTable(t)
    ensures ValidTable(r)
  {
    if pieces == [] then t else OnField(OnFields(t, pieces[..|pieces| - 1]), pieces[|pieces| - 1])
  }

  function OnHeaders(t: Table, hs: seq<Header>): (r: Table)
    requires ValidTable(t)
    ensures ValidTable(r)
  {
    if hs == [] then t
    else
      var h := hs[|hs| - 1];
      OnValues(OnFields(OnHeaders(t, hs[..|hs| - 1]), h.pieces), h.chunks)
  }

  /** The headers that have a value. */
  function Valued(hs: seq<Header>): seq<Header> {
    if hs == [] then []
    else Valued(hs[..|hs| - 1]) + (if hs[|hs| - 1].chunks == [] then [] else [hs[|hs| - 1]])
  }

  /** What a header means: its joined name and its joined value, each cut to 256 bytes. */
  function Meaning(h: Header): Pair {
    Pair(Cut(Join(h.pieces)), Cut(Join(h.chunks)))
  }

  /** What the callbacks keep of a header: of its name only the last piece. */
  function Kept(h: Header): Pair
    requires h.pieces != []
  {
    Pair(Cut(h.pieces[|h.pieces| - 1]), Cut(Join(h.chunks)))
  }

  function Meanings(hs: seq<Header>): (r: seq<Pair>)
    ensures |r| == |hs| && forall i :: 0 <= i < |hs| ==> r[i] == Meaning(hs[i])
  {
    seq(|hs|, i requires 0 <= i < |hs| => Meaning(hs[i]))
  }

  ghost function AllKept(hs: seq<Header>): (r: seq<Pair>)
    requires Named(hs)
    ensures |r| == |hs| && forall i :: 0 <= i < |hs| ==> r[i] == Kept(hs[i])
  {
    seq(|hs|, i requires 0 <= i < |hs| && Named(hs) => Kept(hs[i]))
  }

  function First64(ps: seq<Pair>): seq<Pair> {
    if |ps| <= 64 then ps else ps[..64]
  }

  /** The table holds ps: complete, or with the last pair still open for more value chunks. */
  ghost predicate Holds(t: Table, ps: seq<Pair>)
    requires ValidTable(t)
  {
    if t.inValue && t.count < MAX_HEADERS then |ps| == t.count + 1 && t.slots[..t.count + 1] == ps
    else t.slots[..t.count] == First64(ps)
  }

  lemma ExtendIsCut(x: Text, y: Text)
    ensures Extend(Cut(x), y) == Cut(x + y)
  {
  }

  lemma FieldKeeps(t: Table, ps: seq<Pair>, name: Text)
    requires ValidTable(t) && Holds(t, ps)
    ensures Holds(OnField(t, name), ps) && !OnField(t, name).inValue && OnField(t, name).current == Cut(name)
  {
  }

  lemma FirstChunk(t: Table, ps: seq<Pair>, data: Text)
    requires ValidTable(t) && Holds(t, ps) && !t.inValue
    ensures var u := OnValue(t, data);
            Holds(u, ps + [Pair(t.current, Cut(data))]) && (u.inValue <==> t.count < MAX_HEADERS) && u.count == t.count
  {
    ExtendIsCut([], data);
    assert [] + data == data;
    var u := OnValue(t, data);
    if t.count < MAX_HEADERS {
      assert u.slots[..t.count + 1] == t.slots[..t.count] + [Pair(t.current, Cut(data))];
    }
  }

  lemma MoreChunk(t: Table, ps: seq<Pair>, name: Text, value: Text, data: Text)
    requires ValidTable(t) && Holds(t, ps + [Pair(name, Cut(value))]) && (t.inValue <==> t.count < MAX_HEADERS)
    requires t.count == MAX_HEADERS ==> |ps| >= MAX_HEADERS
    ensures var u := OnValue(t, data);
            && Holds(u, ps + [Pair(name, Cut(value + data))])
            && (u.inValue <==> u.count < MAX_HEADERS) && u.count == t.count
  {
    ExtendIsCut(value, data);
    var u := OnValue(t, data);
    if t.inValue {
      assert t.slots[..t.count + 1][..t.count] == t.slots[..t.count];
      assert t.slots[..t.count + 1][t.count] == Pair(name, Cut(value));
      assert (ps + [Pair(name, Cut(value))])[..|ps|] == ps;
      assert u.slots[..t.count + 1] == t.slots[..t.count] + [Pair(name, Cut(value + data))];
    }
  }

  lemma FullHolds(t: Table, ps: seq<Pair>)
    requires ValidTable(t) && Holds(t, ps) && t.count == MAX_HEADERS
    ensures |ps| >= MAX_HEADERS
  {
  }

  /** A value delivered in any chunks is the joined value. */
  lemma {:induction false} ValuesJoin(t: Table, ps: seq<Pair>, chunks: seq<Text>)
    requires ValidTable(t) && Holds(t, ps) && !t.inValue && chunks != []
    ensures var u := OnValues(t, chunks);
            && Holds(u, ps + [Pair(t.current, Cut(Join(chunks)))])
            && (u.inValue <==> u.count < MAX_HEADERS) && u.count == t.count
  {
    if t.count == MAX_HEADERS { FullHolds(t, ps); }
    hide Holds, OnValue, Cut;
    var n := |chunks| - 1;
    if n == 0 {
      FirstChunk(t, ps, chunks[0]);
      assert Join(chunks) == [] + chunks[0] == chunks[0];
      assert OnValues(t, chunks[..0]) == t;
    } else {
      ValuesJoin(t, ps, chunks[..n]);
      MoreChunk(OnValues(t, chunks[..n]), ps, t.current, Join(chunks[..n]), chunks[n]);
    }
  }

  /** Each piece of a name replaces the one before. */
  lemma {:induction false} FieldsKeep(t: Table, ps: seq<Pair>, pieces: seq<Text>)
    requires ValidTable(t) && Holds(t, ps) && pieces != []
    ensures var u := OnFields(t, pieces);
            Holds(u, ps) && !u.inValue && u.current == Cut(pieces[|pieces| - 1])
  {
    hide Holds, OnField, Cut;
    var n := |pieces| - 1;
    if n > 0 { FieldsKeep(t, ps, pieces[..n]); } else { assert OnFields(t, pieces[..0]) == t; }
    FieldKeeps(OnFields(t, pieces[..n]), ps, pieces[n]);
  }

  lemma {:induction false} ValuedNamed(hs: seq<Header>)
    requires Named(hs)
    ensures Named(Valued(hs))
  {
    if hs != [] { ValuedNamed(hs[..|hs| - 1]); }
  }

  lemma {:induction false} HeadersHold(t: Table, hs: seq<Header>)
    requires ValidTable(t) && t.count == 0 && !t.inValue && Named(hs)
    ensures Named(Valued(hs)) && Holds(OnHeaders(t, hs), AllKept(Valued(hs)))
  {
    ValuedNamed(hs);
    if hs != [] {
      var n := |hs| - 1;
      HeadersHold(t, hs[..n]);
      var before, ps := OnHeaders(t, hs[..n]), AllKept(Valued(hs[..n]));
      hide Holds, OnField, OnValue, OnFields, OnValues, Cut;
      FieldsKeep(before, ps, hs[n].pieces);
      if hs[n].chunks != [] {
        ValuesJoin(OnFields(before, hs[n].pieces), ps, hs[n].chunks);
        assert AllKept(Valued(hs)) == ps + [Kept(hs[n])];
      } else {
        assert Valued(hs) == Valued(hs[..n]);
        NoChunks(OnFields(before, hs[n].pieces), hs[n].chunks);
      }
    }
  }

  lemma NoChunks(t: Table, chunks: seq<Text>)
    requires ValidTable(t) && chunks == []
    ensures OnValues(t, chunks) == t
  {
  }

  /**
   For every callback trace: the finished table is the first 64 headers with a value, each value the
   first 256 bytes of its joined chunks and each name the first 256 bytes of its last piece.
   */
  lemma HeaderTable(t: Table, hs: seq<Header>)
    requires ValidTable(t) && t.count == 0 && !t.inValue && Named(hs)
    ensures Named(Valued(hs))
    ensures var u := OnComplete(OnHeaders(t, hs));
            u.slots[..u.count] == First64(AllKept(Valued(hs)))
  {
    hide OnHeaders, Valued;
    HeadersHold(t, hs);
  }

  /** The last piece of the name stands for the whole name. */
  predicate NameSurvives(h: Header)
    requires h.pieces != []
  {
    Cut(h.pieces[|h.pieces| - 1]) == Cut(Join(h.pieces))
  }

  /**
   The table is what the headers mean exactly when, for each of the first 64 headers with a value,
   the last piece of the name reads like the whole name.
   */
  lemma HeaderTableMeansIff(t: Table, hs: seq<Header>)
    requires ValidTable(t) && t.count == 0 && !t.inValue && Named(hs)
    ensures Named(Valued(hs))
    ensures var u := OnComplete(OnHeaders(t, hs));
            u.slots[..u.count] == First64(Meanings(Valued(hs)))
            <==> forall i :: 0 <= i < |Valued(hs)| && i < MAX_HEADERS ==> NameSurvives(Valued(hs)[i])
  {
    hide OnHeaders, Valued, Cut, Join;
    HeaderTable(t, hs);
    var vs := Valued(hs);
    var got, want := First64(AllKept(vs)), First64(Meanings(vs));
    forall i | 0 <= i < |vs| && i < MAX_HEADERS ensures got[i] == want[i] <==> NameSurvives(vs[i]) {
      assert got[i] == Kept(vs[i]) && want[i] == Meaning(vs[i]);
    }
  }

  /** A name of at most 256 bytes survives exactly when all but its last piece is empty. */
  lemma ShortNameSurvivesIff(h: Header)
    requires h.pieces != [] && |Join(h.pieces)| <= 256
    ensures NameSurvives(h) <==> Join(h.pieces[..|h.pieces| - 1]) == []
  {
    var a, b := Join(h.pieces[..|h.pieces| - 1]), h.pieces[|h.pieces| - 1];
    assert a == [] ==> a + b == b;
  }
}
