/** The display-list interpreter (do_dlist, do_reg). A display list is a sequence of
    32-bit words: a header word packs four register selectors, least significant byte
    first, and after it come the operand words of those four registers in order. The
    interpreter's effect is modelled as a trace of the geometry it emits, the current
    vertex, the word cursor and the scene bounding box it widens. */
module DisplayList {
  import opened Bits
  import opened Bounds

  const REG_NOP: int := 0x400
  const REG_MTX_RESTORE: int := 0x450
  const REG_COLOR: int := 0x480
  const REG_NORMAL: int := 0x484
  const REG_TEXCOORD: int := 0x488
  const REG_VTX_16: int := 0x48C
  const REG_VTX_10: int := 0x490
  const REG_VTX_XY: int := 0x494
  const REG_VTX_XZ: int := 0x498
  const REG_VTX_YZ: int := 0x49C
  const REG_VTX_DIFF: int := 0x4A0
  const REG_DIF_AMB: int := 0x4C0
  const REG_BEGIN_VTXS: int := 0x500
  const REG_END_VTXS: int := 0x504

  datatype Primitive = Triangles | Quads | TriangleStrip | QuadStrip

  /** What the interpreter emits. Colours are the raw 5-bit channels, normals the
      signed 10-bit components (1/512 units), texture coordinates the signed 16-bit
      components (1/16 units) and vertices positions in 1/4096 units. */
  datatype Event =
    | Begin(prim: Primitive)
    | Vertex(v: Vec)
    | End
    | Colour(r: int, g: int, b: int)
    | Normal(nx: int, ny: int, nz: int)
    | TexCoord(s: int, t: int)

  /** Why interpretation stops: the fatal() calls, and a read beyond the scene data. */
  datatype Fault = UnhandledRegister(reg: int) | BogusPrimitive(kind: U32) | Overrun

  /** The interpreter state: the index of the next word to read, the current vertex
      (vtx_state), the scene bounds and the geometry emitted so far. */
  datatype Machine = Machine(cursor: nat, vtx: Vec, bounds: Box, trace: seq<Event>)

  datatype Step = Ok(m: Machine) | Fatal(fault: Fault)

  /** The byte weight of selector `c` within a header word. */
  function ByteWeight(c: nat): (r: nat)
    requires c < 4
    ensures r > 0
  {
    if c == 0 then 1 else if c == 1 then 0x100 else if c == 2 then 0x1_0000 else 0x100_0000
  }

  /** The `c`-th register selector of a header word, least significant byte first. */
  function Selector(header: U32, c: nat): (r: int)
    requires c < 4
    ensures 0 <= r < 0x100
  {
    (header / ByteWeight(c)) % 0x100
  }

  /** The register a selector names: index quadrupled plus 0x400. */
  function Register(sel: int): int
  {
    sel * 4 + 0x400
  }

  predicate IsHandled(reg: int)
  {
    reg == REG_NOP || reg == REG_MTX_RESTORE || reg == REG_COLOR || reg == REG_NORMAL
    || reg == REG_TEXCOORD || reg == REG_VTX_16 || reg == REG_VTX_10 || reg == REG_VTX_XY
    || reg == REG_VTX_XZ || reg == REG_VTX_YZ || reg == REG_VTX_DIFF || reg == REG_DIF_AMB
    || reg == REG_BEGIN_VTXS || reg == REG_END_VTXS
  }

  /** The registers that emit a vertex and widen the bounds. */
  predicate IsVertexRegister(reg: int)
  {
    reg == REG_VTX_16 || reg == REG_VTX_10 || reg == REG_VTX_XY || reg == REG_VTX_XZ
    || reg == REG_VTX_YZ || reg == REG_VTX_DIFF
  }

  /** The number of operand words a handled register consumes. */
  function OperandCount(reg: int): nat
  {
    if reg == REG_NOP || reg == REG_END_VTXS then 0 else if reg == REG_VTX_16 then 2 else 1
  }

  /** The vertex positions of a trace, in order. */
  function Vertices(es: seq<Event>): seq<Vec>
  {
    if |es| == 0 then []
    else Vertices(es[..|es| - 1]) + (if es[|es| - 1].Vertex? then [es[|es| - 1].v] else [])
  }

  /** A vertex write: the vertex becomes current, is emitted and widens the bounds. */
  function PlaceVertex(m: Machine, cursor: nat, v: Vec): Machine
  {
    Machine(cursor, v, UpdateBounds(m.bounds, v), m.trace + [Vertex(v)])
  }

  function Emit(m: Machine, cursor: nat, e: Event): Machine
  {
    m.(cursor := cursor, trace := m.trace + [e])
  }

  /** The three signed 10-bit fields of a word. */
  function Signed10(w: U32, k: nat): (r: int)
    requires k < 3
    ensures -0x200 <= r < 0x200
  {
    SignExtend10(Field10(w, k))
  }

  /** do_reg: one register write, reading its operands at the cursor. */
  function DoReg(words: seq<U32>, reg: int, m: Machine): (r: Step)
    ensures r.Fatal? && r.fault.UnhandledRegister? <==> !IsHandled(reg)
    ensures r == Fatal(Overrun) <==> IsHandled(reg) && m.cursor + OperandCount(reg) > |words|
    ensures r.Fatal? && r.fault.BogusPrimitive? <==>
              reg == REG_BEGIN_VTXS && m.cursor < |words| && words[m.cursor] > 3
    ensures r.Ok? ==> r.m.cursor == m.cursor + OperandCount(reg)
    ensures r.Ok? ==> m.trace <= r.m.trace && |r.m.trace| <= |m.trace| + 1
    ensures r.Ok? ==> (IsVertexRegister(reg) <==> r.m.trace[|m.trace|..] == [Vertex(r.m.vtx)])
    ensures r.Ok? && !IsVertexRegister(reg) ==> r.m.vtx == m.vtx && r.m.bounds == m.bounds
    ensures r.Ok? && IsVertexRegister(reg) ==> r.m.bounds == UpdateBounds(m.bounds, r.m.vtx)
  {
    if !IsHandled(reg) then Fatal(UnhandledRegister(reg))
    else if m.cursor + OperandCount(reg) > |words| then Fatal(Overrun)
    else if reg == REG_NOP then Ok(m)
    else if reg == REG_END_VTXS then Ok(Emit(m, m.cursor, End))
    else
      var w := words[m.cursor];
      var next := m.cursor + 1;
      if reg == REG_MTX_RESTORE || reg == REG_DIF_AMB then Ok(m.(cursor := next))
      else if reg == REG_COLOR then
        Ok(Emit(m, next, Colour(w % 0x20, (w / 0x20) % 0x20, (w / 0x400) % 0x20)))
      else if reg == REG_NORMAL then
        Ok(Emit(m, next, Normal(Signed10(w, 0), Signed10(w, 1), Signed10(w, 2))))
      else if reg == REG_TEXCOORD then
        Ok(Emit(m, next, TexCoord(SignExtend16(Low16(w)), SignExtend16(High16(w)))))
      else if reg == REG_VTX_16 then
        var z := SignExtend16(Low16(words[next]));
        Ok(PlaceVertex(m, next + 1, Vec(SignExtend16(Low16(w)), SignExtend16(High16(w)), z)))
      else if reg == REG_VTX_10 then
        Ok(PlaceVertex(m, next, Vec(Signed10(w, 0) * 64, Signed10(w, 1) * 64, Signed10(w, 2) * 64)))
      else if reg == REG_VTX_XY then
        Ok(PlaceVertex(m, next, Vec(SignExtend16(Low16(w)), SignExtend16(High16(w)), m.vtx.z)))
      else if reg == REG_VTX_XZ then
        Ok(PlaceVertex(m, next, Vec(SignExtend16(Low16(w)), m.vtx.y, SignExtend16(High16(w)))))
      else if reg == REG_VTX_YZ then
        Ok(PlaceVertex(m, next, Vec(m.vtx.x, SignExtend16(Low16(w)), SignExtend16(High16(w)))))
      else if reg == REG_VTX_DIFF then
        Ok(PlaceVertex(m, next, Vec(m.vtx.x + Signed10(w, 0), m.vtx.y + Signed10(w, 1), m.vtx.z + Signed10(w, 2))))
      else if w == 0 then Ok(Emit(m, next, Begin(Triangles)))
      else if w == 1 then Ok(Emit(m, next, Begin(Quads)))
      else if w == 2 then Ok(Emit(m, next, Begin(TriangleStrip)))
      else if w == 3 then Ok(Emit(m, next, Begin(QuadStrip)))
      else Fatal(BogusPrimitive(w))
  }

  /** What a successful step or run did to the machine: the cursor only moves forward,
      the trace is only appended to, and the bounds are those of the initial bounds
      widened by every emitted vertex in order. */
  predicate Extends(m: Machine, m': Machine)
  {
    m.cursor <= m'.cursor && m.trace <= m'.trace
    && m'.bounds == Accumulate(m.bounds, Vertices(m'.trace[|m.trace|..]))
  }

  /** The registers of header selectors c, c+1, ..., 3, in that order. */
  function DoHeader(words: seq<U32>, header: U32, c: nat, m: Machine): (r: Step)
    requires c <= 4
    ensures r.Ok? ==> Extends(m, r.m)
    decreases 4 - c
  {
    if c == 4 then Ok(m)
    else
      match DoReg(words, Register(Selector(header, c)), m)
      case Fatal(f) => Fatal(f)
      case Ok(m1) =>
        StepExtends(words, Register(Selector(header, c)), m);
        var r := DoHeader(words, header, c + 1, m1);
        if r.Ok? then ExtendsTransitive(m, m1, r.m); r else r
  }

  /** do_dlist from machine `m` on: while the cursor is before `end`, read a header
      word and perform its four register writes. */
  function RunFrom(words: seq<U32>, end: nat, m: Machine): (r: Step)
    ensures r.Ok? ==> Extends(m, r.m) && r.m.cursor >= end
    decreases end - m.cursor
  {
    if m.cursor >= end then Ok(m)
    else if m.cursor >= |words| then Fatal(Overrun)
    else
      var m0 := m.(cursor := m.cursor + 1);
      match DoHeader(words, words[m.cursor], 0, m0)
      case Fatal(f) => Fatal(f)
      case Ok(m1) =>
        var r := RunFrom(words, end, m1);
        if r.Ok? then
          assert Extends(m, m0) by { assert m0.trace[|m.trace|..] == []; }
          ExtendsTransitive(m, m0, m1);
          ExtendsTransitive(m, m1, r.m);
          r
        else r
  }

  /** A display list of `len` bytes whose first word is `words[0]`: the words after
      the list are still readable as operands, as they are in the scene data. */
  function RunDlist(words: seq<U32>, len: nat, bounds: Box): (r: Step)
    ensures r.Ok? ==> r.m.bounds == Accumulate(bounds, Vertices(r.m.trace)) && r.m.cursor >= len / 4
  {
    RunFrom(words, len / 4, Machine(0, Vec(0, 0, 0), bounds, []))
  }

  /** do_dlist: while the cursor is before the end, read a header word and perform
      its four register writes. */
  method DoDlist(words: seq<U32>, len: nat, bounds: Box) returns (r: Step)
    ensures r == RunDlist(words, len, bounds)
  {
    var end := len / 4;
    var m := Machine(0, Vec(0, 0, 0), bounds, []);
    while m.cursor < end
      invariant RunFrom(words, end, m) == RunDlist(words, len, bounds)
      decreases end - m.cursor
    {
      if m.cursor >= |words| {
        return Fatal(Overrun);
      }
      var s := DoHeaderWord(words, words[m.cursor], m.(cursor := m.cursor + 1));
      if s.Fatal? {
        return s;
      }
      m := s.m;
    }
    return Ok(m);
  }

  /** The inner loop of do_dlist: the header's selectors, lowest byte first, each
      quadrupled plus 0x400, handed to do_reg. */
  method DoHeaderWord(words: seq<U32>, header: U32, m0: Machine) returns (r: Step)
    ensures r == DoHeader(words, header, 0, m0)
  {
    var regs := header;
    var m := m0;
    var c := 0;
    while c < 4
      invariant c <= 4
      invariant regs == header / ByteWeight4(c)
      invariant DoHeader(words, header, c, m) == DoHeader(words, header, 0, m0)
    {
      ShiftedSelector(header, c);
      var reg := (regs % 0x100) * 4 + 0x400;
      var s := DoReg(words, reg, m);
      if s.Fatal? {
        return Fatal(s.fault);
      }
      m := s.m;
      c := c + 1;
      regs := regs / 0x100;
    }
    return Ok(m);
  }

  /** 256^c for c <= 4. */
  function ByteWeight4(c: nat): (r: nat)
    requires c <= 4
    ensures r > 0
  {
    if c < 4 then ByteWeight(c) else 0x1_0000_0000
  }

  /** Shifting the header right by 8 bits walks the selectors in order. */
  lemma ShiftedSelector(header: U32, c: nat)
    requires c < 4
    ensures (header / ByteWeight4(c)) % 0x100 == Selector(header, c)
    ensures header / ByteWeight4(c) / 0x100 == header / ByteWeight4(c + 1)
  {
  }

  lemma StepExtends(words: seq<U32>, reg: int, m: Machine)
    ensures DoReg(words, reg, m).Ok? ==> Extends(m, DoReg(words, reg, m).m)
  {
    var r := DoReg(words, reg, m);
    if r.Ok? {
      var added := r.m.trace[|m.trace|..];
      if IsVertexRegister(reg) {
        assert Vertices(added) == [r.m.vtx] by { assert added[..0] == []; }
      } else if |added| == 1 {
        assert Vertices(added) == [] by { assert added[..0] == []; }
      } else {
        assert added == [];
      }
    }
  }

  /** The vertices of a concatenation are the concatenation of the vertices. */
  lemma {:induction false} VerticesAppend(a: seq<Event>, b: seq<Event>)
    ensures Vertices(a + b) == Vertices(a) + Vertices(b)
    decreases |b|
  {
    if |b| > 0 {
      var b' := b[..|b| - 1];
      assert (a + b)[..|a + b| - 1] == a + b';
      VerticesAppend(a, b');
    } else {
      assert a + b == a;
    }
  }

  /** Accumulating over a concatenation is accumulating over each part in turn. */
  lemma {:induction false} AccumulateAppend(b: Box, xs: seq<Vec>, ys: seq<Vec>)
    ensures Accumulate(b, xs + ys) == Accumulate(Accumulate(b, xs), ys)
    decreases |ys|
  {
    if |ys| > 0 {
      var ys' := ys[..|ys| - 1];
      assert (xs + ys)[..|xs + ys| - 1] == xs + ys';
      AccumulateAppend(b, xs, ys');
    } else {
      assert xs + ys == xs;
    }
  }

  lemma ExtendsTransitive(m1: Machine, m2: Machine, m3: Machine)
    requires Extends(m1, m2) && Extends(m2, m3)
    ensures Extends(m1, m3)
  {
    var a := m2.trace[|m1.trace|..];
    var b := m3.trace[|m2.trace|..];
    assert m3.trace[|m1.trace|..] == a + b;
    VerticesAppend(a, b);
    AccumulateAppend(m1.bounds, Vertices(a), Vertices(b));
  }

  /** The four selectors of a header word reassemble it, least significant first. */
  lemma SelectorsReassemble(header: U32)
    ensures header == Selector(header, 0) + 0x100 * Selector(header, 1)
                      + 0x1_0000 * Selector(header, 2) + 0x100_0000 * Selector(header, 3)
  {
    var q1, q2, q3 := header / 0x100, header / 0x1_0000, header / 0x100_0000;
    assert q2 == q1 / 0x100 && q3 == q2 / 0x100 && q3 < 0x100;
    assert header == header % 0x100 + 0x100 * q1 && q1 == q1 % 0x100 + 0x100 * q2 && q2 == q2 % 0x100 + 0x100 * q3;
    assert Selector(header, 0) == header % 0x100 && Selector(header, 1) == q1 % 0x100;
    assert Selector(header, 2) == q2 % 0x100 && Selector(header, 3) == q3;
  }

  /** The vertex each vertex register writes. VTX_16 takes three signed 16-bit halves
      from two words; VTX_10 takes the three signed 10-bit fields of one word, each 64
      times as large in 1/4096 units; the two-coordinate forms set their two axes from
      the signed halves of one word and keep the third coordinate of the current vertex;
      VTX_DIFF moves the current vertex by its three signed 10-bit fields. */
  lemma PartialVertexForms(words: seq<U32>, reg: int, m: Machine)
    requires IsVertexRegister(reg) && DoReg(words, reg, m).Ok?
    ensures reg == REG_VTX_16 ==>
              var xy := words[m.cursor];
              DoReg(words, reg, m).m.vtx
                == Vec(SignExtend16(xy % 0x1_0000), SignExtend16(xy / 0x1_0000),
                       SignExtend16(words[m.cursor + 1] % 0x1_0000))
    ensures reg == REG_VTX_10 ==>
              var d := words[m.cursor];
              DoReg(words, reg, m).m.vtx
                == Vec(64 * SignExtend10(d % 0x400), 64 * SignExtend10((d / 0x400) % 0x400),
                       64 * SignExtend10((d / 0x10_0000) % 0x400))
    ensures reg == REG_VTX_XY ==>
              var w := words[m.cursor];
              DoReg(words, reg, m).m.vtx == Vec(SignExtend16(w % 0x1_0000), SignExtend16(w / 0x1_0000), m.vtx.z)
    ensures reg == REG_VTX_XZ ==>
              var w := words[m.cursor];
              DoReg(words, reg, m).m.vtx == Vec(SignExtend16(w % 0x1_0000), m.vtx.y, SignExtend16(w / 0x1_0000))
    ensures reg == REG_VTX_YZ ==>
              var w := words[m.cursor];
              DoReg(words, reg, m).m.vtx == Vec(m.vtx.x, SignExtend16(w % 0x1_0000), SignExtend16(w / 0x1_0000))
    ensures reg == REG_VTX_DIFF ==>
              var d := words[m.cursor];
              DoReg(words, reg, m).m.vtx
                == Vec(m.vtx.x + SignExtend10(d % 0x400), m.vtx.y + SignExtend10((d / 0x400) % 0x400),
                       m.vtx.z + SignExtend10((d / 0x10_0000) % 0x400))
  {
  }

  /** The event each other register appends. BEGIN_VTXS names the primitive by its
      type word 0..3; COLOR gives the three 5-bit channels, red lowest; NORMAL the
      three signed 10-bit fields; TEXCOORD the two signed 16-bit halves, s lowest;
      END_VTXS closes the primitive; NOP, MTX_RESTORE and DIF_AMB append nothing. */
  lemma EventForms(words: seq<U32>, reg: int, m: Machine)
    requires !IsVertexRegister(reg) && DoReg(words, reg, m).Ok?
    ensures reg == REG_BEGIN_VTXS ==>
              words[m.cursor] <= 3
              && DoReg(words, reg, m).m.trace
                 == m.trace + [Begin([Triangles, Quads, TriangleStrip, QuadStrip][words[m.cursor]])]
    ensures reg == REG_END_VTXS ==> DoReg(words, reg, m).m.trace == m.trace + [End]
    ensures reg == REG_COLOR ==>
              var w := words[m.cursor];
              DoReg(words, reg, m).m.trace == m.trace + [Colour(w % 0x20, (w / 0x20) % 0x20, (w / 0x400) % 0x20)]
    ensures reg == REG_NORMAL ==>
              var d := words[m.cursor];
              DoReg(words, reg, m).m.trace
                == m.trace + [Normal(SignExtend10(d % 0x400), SignExtend10((d / 0x400) % 0x400),
                                     SignExtend10((d / 0x10_0000) % 0x400))]
    ensures reg == REG_TEXCOORD ==>
              var w := words[m.cursor];
              DoReg(words, reg, m).m.trace
                == m.trace + [TexCoord(SignExtend16(w % 0x1_0000), SignExtend16(w / 0x1_0000))]
    ensures reg == REG_NOP || reg == REG_MTX_RESTORE || reg == REG_DIF_AMB ==>
              DoReg(words, reg, m).m.trace == m.trace
  {
  }

  /** After a successful run, the x minimum is at most every emitted vertex's x:
      the bounds cover the list along x. */
  lemma RunCoversX(words: seq<U32>, len: nat, bounds: Box)
    requires RunDlist(words, len, bounds).Ok?
    ensures var m := RunDlist(words, len, bounds).m;
            forall v :: v in Vertices(m.trace) ==> m.bounds.minX <= v.x
  {
    var m := RunDlist(words, len, bounds).m;
    AccumulateMinX(bounds, Vertices(m.trace));
  }

  /** The two register writes of the example list below that read operands. */
  lemma TriangleBegin(words: seq<U32>)
    requires words == [0x0041_2340, 0, 0xFFFF_0001, 2]
    ensures DoReg(words, REG_BEGIN_VTXS, Machine(1, Vec(0, 0, 0), INITIAL_BOX, []))
            == Ok(Machine(2, Vec(0, 0, 0), INITIAL_BOX, [Begin(Triangles)]))
  {
  }

  lemma TriangleVertex(words: seq<U32>)
    requires words == [0x0041_2340, 0, 0xFFFF_0001, 2]
    ensures var v := Vec(1, -1, 2);
            DoReg(words, REG_VTX_16, Machine(2, Vec(0, 0, 0), INITIAL_BOX, [Begin(Triangles)]))
            == Ok(Machine(4, v, UpdateBounds(INITIAL_BOX, v), [Begin(Triangles), Vertex(v)]))
  {
    assert words[2] == 0xFFFF_0001 && words[3] == 2;
    assert SignExtend16(Low16(0xFFFF_0001)) == 1 && SignExtend16(High16(0xFFFF_0001)) == -1;
    assert SignExtend16(Low16(2)) == 2;
  }

  /** A list of one header (BEGIN triangles, VTX_16, END, NOP) and its three operand
      words: the selectors are taken from the lowest byte up. */
  lemma TriangleExample()
    ensures RunDlist([0x0041_2340, 0, 0xFFFF_0001, 2], 16, INITIAL_BOX)
            == Ok(Machine(4, Vec(1, -1, 2), Box(1, -1, 1, -FLT_MAX_UNITS, -FLT_MAX_UNITS, -FLT_MAX_UNITS),
                          [Begin(Triangles), Vertex(Vec(1, -1, 2)), End]))
  {
    var words: seq<U32> := [0x0041_2340, 0, 0xFFFF_0001, 2];
    var header: U32 := 0x0041_2340;
    assert Register(Selector(header, 0)) == REG_BEGIN_VTXS;
    assert Register(Selector(header, 1)) == REG_VTX_16;
    assert Register(Selector(header, 2)) == REG_END_VTXS;
    assert Register(Selector(header, 3)) == REG_NOP;
    TriangleBegin(words);
    TriangleVertex(words);
    var v := Vec(1, -1, 2);
    FirstVertexSetsOnlyMinima(v);
    var m0 := Machine(1, Vec(0, 0, 0), INITIAL_BOX, []);
    var m1 := Machine(2, Vec(0, 0, 0), INITIAL_BOX, [Begin(Triangles)]);
    var m2 := Machine(4, v, UpdateBounds(INITIAL_BOX, v), [Begin(Triangles), Vertex(v)]);
    var m3 := m2.(trace := m2.trace + [End]);
    assert DoReg(words, REG_END_VTXS, m2) == Ok(m3);
    assert DoReg(words, REG_NOP, m3) == Ok(m3);
    assert DoHeader(words, header, 3, m3) == Ok(m3);
    assert DoHeader(words, header, 2, m2) == Ok(m3);
    assert DoHeader(words, header, 1, m1) == Ok(m3);
    assert DoHeader(words, header, 0, m0) == Ok(m3);
    assert RunFrom(words, 4, m3) == Ok(m3);
  }
}
