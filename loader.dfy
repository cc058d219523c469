/** The loader's mesh and display-list tables: the mesh scan in CModel_load that counts
    meshes and display lists, the handle table it sets up, and build_meshes, which
    compiles each display list once while copying every mesh. */
module Loader {
  import opened Bits
  import opened Bounds
  import opened Wrappers
  import opened DisplayList

  /** A mesh record: material id at byte 0, display-list id at byte 2. */
  datatype Mesh = Mesh(matid: U16, dlistid: U16)

  /** The used part of a display-list record: start offset at byte 0, size at byte 4. */
  datatype DlistRecord = DlistRecord(startOfs: U32, size: U32)

  const MESH_SIZE: nat := 4

  /** A display list as compiled: its id and the geometry its interpretation emitted. */
  datatype Compiled = Compiled(dlistid: nat, trace: seq<Event>)

  /** The mesh records from byte offset `ofs` to the end of the scene data. */
  function MeshTable(data: seq<Byte>, ofs: nat): (r: seq<Mesh>)
    requires ofs >= |data| || (|data| - ofs) % MESH_SIZE == 0
    ensures ofs < |data| ==> |r| * MESH_SIZE == |data| - ofs
    ensures ofs >= |data| ==> r == []
  {
    if ofs >= |data| then []
    else seq((|data| - ofs) / MESH_SIZE, i requires 0 <= i < (|data| - ofs) / MESH_SIZE =>
               Mesh(Read16(data, ofs + MESH_SIZE * i), Read16(data, ofs + MESH_SIZE * i + 2)))
  }

  /** The number of display lists: one more than the largest display-list id. */
  function DlistCount(ms: seq<Mesh>): (r: nat)
    ensures forall i :: 0 <= i < |ms| ==> ms[i].dlistid < r
  {
    if |ms| == 0 then 0
    else var n := DlistCount(ms[..|ms| - 1]); if ms[|ms| - 1].dlistid >= n then ms[|ms| - 1].dlistid + 1 else n
  }

  /** DlistCount is the least bound of the ids that some mesh attains: 0 only for no
      meshes, above every id, and one more than some mesh's id. */
  lemma {:induction false} DlistCountIsMaxPlusOne(ms: seq<Mesh>)
    ensures DlistCount(ms) == 0 <==> |ms| == 0
    ensures forall i :: 0 <= i < |ms| ==> ms[i].dlistid < DlistCount(ms)
    ensures |ms| > 0 ==> exists i :: 0 <= i < |ms| && ms[i].dlistid == DlistCount(ms) - 1
  {
    if |ms| > 0 {
      var init := ms[..|ms| - 1];
      DlistCountIsMaxPlusOne(init);
      forall i | 0 <= i < |ms| - 1
        ensures ms[i].dlistid < DlistCount(ms)
      {
        assert ms[i] == init[i];
      }
      if DlistCount(ms) == DlistCount(init) && ms[|ms| - 1].dlistid < DlistCount(init) {
        var i :| 0 <= i < |init| && init[i].dlistid == DlistCount(init) - 1;
        assert ms[i] == init[i];
      }
    }
  }

  /** The prefix one longer ends with the next element. */
  lemma PrefixStep<T>(xs: seq<T>, n: nat)
    requires n < |xs|
    ensures xs[..n + 1][..n] == xs[..n] && xs[..n + 1][n] == xs[n] && |xs[..n + 1]| == n + 1
  {
  }

  /** The mesh scan of CModel_load: count the mesh records up to the end of the scene
      data, and the display lists as the largest display-list id plus one. */
  method ScanMeshes(data: seq<Byte>, meshOfs: nat) returns (meshCount: nat, numDlists: nat)
    requires meshOfs >= |data| || (|data| - meshOfs) % MESH_SIZE == 0
    ensures meshCount == |MeshTable(data, meshOfs)|
    ensures numDlists == DlistCount(MeshTable(data, meshOfs))
  {
    ghost var ms := MeshTable(data, meshOfs);
    meshCount := 0;
    numDlists := 0;
    var ofs := meshOfs;
    while ofs < |data|
      invariant ofs == meshOfs + MESH_SIZE * meshCount
      invariant meshCount <= |ms|
      invariant ofs < |data| ==> meshCount < |ms|
      invariant numDlists == DlistCount(ms[..meshCount])
      decreases |data| - ofs
    {
      var dlistid := Read16(data, ofs + 2);
      assert ms[meshCount].dlistid == dlistid;
      PrefixStep(ms, meshCount);
      meshCount := meshCount + 1;
      if dlistid >= numDlists {
        numDlists := dlistid + 1;
      }
      ofs := ofs + MESH_SIZE;
    }
    assert ms[..meshCount] == ms;
  }

  /** The tables build_meshes writes: the handle of each display list (-1 until it is
      compiled), the scene's mesh copies, the compiled lists in order, and the scene
      bounds. GL list names are modelled as 1, 2, 3, ... in compilation order. */
  datatype Tables = Tables(handles: seq<int>, meshes: seq<Mesh>, lists: seq<Compiled>, bounds: Box)

  datatype Built = Built(tables: Tables) | Failed(fault: Fault)

  /** The handle table and the compiled lists agree: a handle is -1 or the position
      (plus one) of that list's compilation, and each compiled list's handle points
      back to it. */
  predicate HandlesAgree(handles: seq<int>, lists: seq<Compiled>)
  {
    HandlesPoint(handles, lists) && ListsPoint(handles, lists)
  }

  /** Every set handle is the position (plus one) of a compilation of its list. */
  predicate HandlesPoint(handles: seq<int>, lists: seq<Compiled>)
  {
    forall id :: 0 <= id < |handles| ==>
      handles[id] == -1 || (1 <= handles[id] <= |lists| && lists[handles[id] - 1].dlistid == id)
  }

  /** Every compilation's handle points back to it. */
  predicate ListsPoint(handles: seq<int>, lists: seq<Compiled>)
  {
    forall j :: 0 <= j < |lists| ==> lists[j].dlistid < |handles| && handles[lists[j].dlistid] == j + 1
  }

  /** No handle set in `h1` is -1 in `h2`. */
  predicate StaysSet(h1: seq<int>, h2: seq<int>)
  {
    |h1| == |h2| && forall id :: 0 <= id < |h1| && h1[id] != -1 ==> h2[id] != -1
  }

  /** The display list's words: the scene data from its start offset on. */
  function WordsAt(data: seq<Byte>, ofs: nat): (r: seq<U32>)
    ensures ofs < |data| ==> |r| == (|data| - ofs) / 4
    ensures |r| == 0 || ofs + 4 * |r| <= |data|
    ensures forall i :: 0 <= i < |r| ==>
              && r[i] % 0x100 == data[ofs + 4 * i]
              && (r[i] / 0x100) % 0x100 == data[ofs + 4 * i + 1]
              && (r[i] / 0x1_0000) % 0x100 == data[ofs + 4 * i + 2]
              && r[i] / 0x100_0000 == data[ofs + 4 * i + 3]
  {
    if ofs >= |data| then []
    else seq((|data| - ofs) / 4, i requires 0 <= i < (|data| - ofs) / 4 => Read32(data, ofs + 4 * i))
  }

  predicate IdsInRange(ms: seq<Mesh>, dlists: seq<DlistRecord>, numDlists: nat)
  {
    forall i :: 0 <= i < |ms| ==> ms[i].dlistid < |dlists| && ms[i].dlistid < numDlists
  }

  /** One iteration of build_meshes for mesh `mesh`: copy it, and compile its display
      list unless its handle is already set. */
  function BuildStep(mesh: Mesh, dlists: seq<DlistRecord>, data: seq<Byte>, t: Tables): (r: Built)
    requires mesh.dlistid < |dlists| && mesh.dlistid < |t.handles|
    ensures r.Built? ==> |r.tables.handles| == |t.handles| && r.tables.meshes == t.meshes + [mesh]
    ensures r.Built? ==> r.tables.handles[mesh.dlistid] != -1 && StaysSet(t.handles, r.tables.handles)
    ensures r.Built? && t.handles[mesh.dlistid] != -1 ==> r.tables == t.(meshes := t.meshes + [mesh])
  {
    var t1 := t.(meshes := t.meshes + [mesh]);
    if t.handles[mesh.dlistid] != -1 then Built(t1)
    else
      var rec := dlists[mesh.dlistid];
      match RunDlist(WordsAt(data, rec.startOfs), rec.size, t.bounds)
      case Fatal(f) => Failed(f)
      case Ok(m) =>
        Built(t1.(handles := t.handles[mesh.dlistid := |t.lists| + 1],
                  lists := t.lists + [Compiled(mesh.dlistid, m.trace)],
                  bounds := m.bounds))
  }

  /** Compiling a list whose handle is -1, and setting its handle to the new
      compilation, keeps handles and compilations in agreement. */
  lemma AppendAgrees(handles: seq<int>, lists: seq<Compiled>, id: nat, trace: seq<Event>)
    requires HandlesAgree(handles, lists) && id < |handles| && handles[id] == -1
    ensures HandlesAgree(handles[id := |lists| + 1], lists + [Compiled(id, trace)])
  {
    var h', l' := handles[id := |lists| + 1], lists + [Compiled(id, trace)];
    forall i | 0 <= i < |h'|
      ensures h'[i] == -1 || (1 <= h'[i] <= |l'| && l'[h'[i] - 1].dlistid == i)
    {
      if i != id && handles[i] != -1 {
        assert l'[handles[i] - 1] == lists[handles[i] - 1];
      }
    }
    forall j | 0 <= j < |l'|
      ensures l'[j].dlistid < |h'| && h'[l'[j].dlistid] == j + 1
    {
      if j < |lists| {
        assert l'[j] == lists[j];
      }
    }
  }

  /** build_meshes from mesh `k` on. */
  function BuildFrom(ms: seq<Mesh>, dlists: seq<DlistRecord>, data: seq<Byte>, k: nat, t: Tables): (r: Built)
    requires k <= |ms| && IdsInRange(ms, dlists, |t.handles|)
    ensures r.Built? ==> |r.tables.handles| == |t.handles|
    decreases |ms| - k
  {
    if k == |ms| then Built(t)
    else
      match BuildStep(ms[k], dlists, data, t)
      case Failed(f) => Failed(f)
      case Built(t1) => BuildFrom(ms, dlists, data, k + 1, t1)
  }

  /** Appending the element at `k` and then the rest is appending the suffix from `k`. */
  lemma AppendSuffix<T>(xs: seq<T>, ys: seq<T>, k: nat)
    requires k < |ys|
    ensures xs + [ys[k]] + ys[k + 1..] == xs + ys[k..]
  {
    assert ys[k..] == [ys[k]] + ys[k + 1..];
  }

  /** A build copies every mesh from `k` on, in order. */
  lemma {:induction false} BuildCopiesMeshes(ms: seq<Mesh>, dlists: seq<DlistRecord>, data: seq<Byte>, k: nat, t: Tables)
    requires k <= |ms| && IdsInRange(ms, dlists, |t.handles|)
    ensures var r := BuildFrom(ms, dlists, data, k, t);
            r.Built? ==> r.tables.meshes == t.meshes + ms[k..]
    decreases |ms| - k
  {
    if k < |ms| {
      var s := BuildStep(ms[k], dlists, data, t);
      if s.Built? {
        BuildCopiesMeshes(ms, dlists, data, k + 1, s.tables);
        AppendSuffix(t.meshes, ms, k);
      }
    }
  }

  /** The tables before build_meshes: every handle -1, the bounds at their initial values. */
  function InitialTables(numDlists: nat): Tables
  {
    Tables(seq(numDlists, _ => -1), [], [], INITIAL_BOX)
  }

  /** All the geometry of the compiled lists, in compilation order. */
  function AllVertices(lists: seq<Compiled>): seq<Vec>
  {
    if |lists| == 0 then [] else AllVertices(lists[..|lists| - 1]) + Vertices(lists[|lists| - 1].trace)
  }

  /** One step keeps the bounds those of all compiled geometry, and only appends lists. */
  lemma StepBounds(mesh: Mesh, dlists: seq<DlistRecord>, data: seq<Byte>, t: Tables)
    requires mesh.dlistid < |dlists| && mesh.dlistid < |t.handles|
    requires t.bounds == Accumulate(INITIAL_BOX, AllVertices(t.lists))
    ensures var s := BuildStep(mesh, dlists, data, t);
            s.Built? ==> t.lists <= s.tables.lists && s.tables.bounds == Accumulate(INITIAL_BOX, AllVertices(s.tables.lists))
  {
    var s := BuildStep(mesh, dlists, data, t);
    if s.Built? && t.handles[mesh.dlistid] == -1 {
      var rec := dlists[mesh.dlistid];
      var m := RunDlist(WordsAt(data, rec.startOfs), rec.size, t.bounds).m;
      var lists := s.tables.lists;
      assert lists == t.lists + [Compiled(mesh.dlistid, m.trace)];
      assert lists[..|lists| - 1] == t.lists;
      assert AllVertices(lists) == AllVertices(t.lists) + Vertices(m.trace);
      AccumulateAppend(INITIAL_BOX, AllVertices(t.lists), Vertices(m.trace));
    }
  }

  /** Over a whole build, the scene bounds are the initial box widened by every vertex
      of every compiled list, in compilation order. */
  lemma {:induction false} BuildBounds(ms: seq<Mesh>, dlists: seq<DlistRecord>, data: seq<Byte>, k: nat, t: Tables)
    requires k <= |ms| && IdsInRange(ms, dlists, |t.handles|)
    requires t.bounds == Accumulate(INITIAL_BOX, AllVertices(t.lists))
    ensures var r := BuildFrom(ms, dlists, data, k, t);
            r.Built? ==> t.lists <= r.tables.lists && r.tables.bounds == Accumulate(INITIAL_BOX, AllVertices(r.tables.lists))
    decreases |ms| - k
  {
    if k < |ms| {
      var s := BuildStep(ms[k], dlists, data, t);
      StepBounds(ms[k], dlists, data, t);
      if s.Built? {
        BuildBounds(ms, dlists, data, k + 1, s.tables);
      }
    }
  }

  /** One step keeps handles and compilations in agreement. */
  lemma StepAgrees(mesh: Mesh, dlists: seq<DlistRecord>, data: seq<Byte>, t: Tables)
    requires mesh.dlistid < |dlists| && mesh.dlistid < |t.handles| && HandlesAgree(t.handles, t.lists)
    ensures var s := BuildStep(mesh, dlists, data, t);
            s.Built? ==> HandlesAgree(s.tables.handles, s.tables.lists)
  {
    var s := BuildStep(mesh, dlists, data, t);
    if s.Built? && t.handles[mesh.dlistid] == -1 {
      var rec := dlists[mesh.dlistid];
      var m := RunDlist(WordsAt(data, rec.startOfs), rec.size, t.bounds).m;
      AppendAgrees(t.handles, t.lists, mesh.dlistid, m.trace);
    }
  }

  /** A whole build keeps handles and compilations in agreement. */
  lemma {:induction false} BuildAgrees(ms: seq<Mesh>, dlists: seq<DlistRecord>, data: seq<Byte>, k: nat, t: Tables)
    requires k <= |ms| && IdsInRange(ms, dlists, |t.handles|) && HandlesAgree(t.handles, t.lists)
    ensures var r := BuildFrom(ms, dlists, data, k, t);
            r.Built? ==> HandlesAgree(r.tables.handles, r.tables.lists)
    decreases |ms| - k
  {
    if k < |ms| {
      var s := BuildStep(ms[k], dlists, data, t);
      StepAgrees(ms[k], dlists, data, t);
      if s.Built? {
        BuildAgrees(ms, dlists, data, k + 1, s.tables);
      }
    }
  }

  /** Agreeing tables never hold two compilations of one display list. */
  lemma AgreeingListsDistinct(t: Tables)
    requires ListsPoint(t.handles, t.lists)
    ensures forall i, j :: 0 <= i < j < |t.lists| ==> t.lists[i].dlistid != t.lists[j].dlistid
  {
    forall i, j | 0 <= i < j < |t.lists|
      ensures t.lists[i].dlistid != t.lists[j].dlistid
    {
      assert t.handles[t.lists[i].dlistid] == i + 1;
    }
  }

  /** The display-list ids the meshes from `k` on use. */
  function UsedFrom(ms: seq<Mesh>, k: nat): set<int>
  {
    set i | k <= i < |ms| :: ms[i].dlistid as int
  }

  /** The display-list ids compiled so far. */
  function CompiledIds(lists: seq<Compiled>): set<int>
  {
    set j | 0 <= j < |lists| :: lists[j].dlistid as int
  }

  lemma UsedFromSplit(ms: seq<Mesh>, k: nat)
    requires k < |ms|
    ensures UsedFrom(ms, k) == {ms[k].dlistid as int} + UsedFrom(ms, k + 1)
  {
    forall x | x in UsedFrom(ms, k)
      ensures x in {ms[k].dlistid as int} + UsedFrom(ms, k + 1)
    {
      var i :| k <= i < |ms| && ms[i].dlistid == x;
      if i > k {
        assert x in UsedFrom(ms, k + 1);
      }
    }
  }

  /** One step compiles at most the id of its mesh. */
  lemma StepCompiledIds(mesh: Mesh, dlists: seq<DlistRecord>, data: seq<Byte>, t: Tables)
    requires mesh.dlistid < |dlists| && mesh.dlistid < |t.handles|
    ensures var s := BuildStep(mesh, dlists, data, t);
            s.Built? ==> CompiledIds(s.tables.lists) <= CompiledIds(t.lists) + {mesh.dlistid as int}
  {
    var s := BuildStep(mesh, dlists, data, t);
    if s.Built? && t.handles[mesh.dlistid] == -1 {
      var lists := s.tables.lists;
      forall x | x in CompiledIds(lists)
        ensures x in CompiledIds(t.lists) + {mesh.dlistid as int}
      {
        var j :| 0 <= j < |lists| && lists[j].dlistid == x;
        if j < |t.lists| {
          assert lists[j] == t.lists[j];
          assert x in CompiledIds(t.lists);
        }
      }
    }
  }

  /** A build from mesh `k` compiles only ids the meshes from `k` on use. */
  lemma {:induction false} BuildCompilesOnlyUsed(ms: seq<Mesh>, dlists: seq<DlistRecord>, data: seq<Byte>, k: nat, t: Tables)
    requires k <= |ms| && IdsInRange(ms, dlists, |t.handles|)
    ensures var r := BuildFrom(ms, dlists, data, k, t);
            r.Built? ==> CompiledIds(r.tables.lists) <= CompiledIds(t.lists) + UsedFrom(ms, k)
    decreases |ms| - k
  {
    if k < |ms| {
      var s := BuildStep(ms[k], dlists, data, t);
      StepCompiledIds(ms[k], dlists, data, t);
      if s.Built? {
        BuildCompilesOnlyUsed(ms, dlists, data, k + 1, s.tables);
        UsedFromSplit(ms, k);
      }
    }
  }

  /** In agreeing tables in which every id some mesh uses has a handle, each of
      those ids has been compiled. */
  lemma UsedIdsCompiled(ms: seq<Mesh>, t: Tables)
    requires HandlesPoint(t.handles, t.lists)
    requires forall i :: 0 <= i < |ms| ==> ms[i].dlistid < |t.handles| && t.handles[ms[i].dlistid] != -1
    ensures UsedFrom(ms, 0) <= CompiledIds(t.lists)
  {
    forall x | x in UsedFrom(ms, 0)
      ensures x in CompiledIds(t.lists)
    {
      var i :| 0 <= i < |ms| && ms[i].dlistid as int == x;
      var id := ms[i].dlistid;
      assert id < |t.handles| && t.handles[id] != -1;
      var j := t.handles[id] - 1;
      assert 0 <= j < |t.lists| && t.lists[j].dlistid == id;
      assert t.lists[j].dlistid as int in CompiledIds(t.lists);
    }
  }

  /** A build from the initial tables compiles each display list exactly once: the
      compiled ids are distinct, they are exactly the ids the meshes use, and every
      mesh is copied. */
  lemma BuildCompilesEachListOnce(ms: seq<Mesh>, dlists: seq<DlistRecord>, data: seq<Byte>, numDlists: nat)
    requires IdsInRange(ms, dlists, numDlists)
    ensures var r := BuildFrom(ms, dlists, data, 0, InitialTables(numDlists));
            r.Built? ==>
              && r.tables.meshes == ms
              && (forall i, j :: 0 <= i < j < |r.tables.lists| ==> r.tables.lists[i].dlistid != r.tables.lists[j].dlistid)
              && CompiledIds(r.tables.lists) == UsedFrom(ms, 0)
  {
    var t0 := InitialTables(numDlists);
    assert HandlesAgree(t0.handles, t0.lists);
    BuildCopiesMeshes(ms, dlists, data, 0, t0);
    CompiledWhereUsed(ms, dlists, data, 0, t0);
    BuildAgrees(ms, dlists, data, 0, t0);
    BuildCompilesOnlyUsed(ms, dlists, data, 0, t0);
    var r := BuildFrom(ms, dlists, data, 0, t0);
    if r.Built? {
      assert ms[0..] == ms;
      assert CompiledIds(t0.lists) == {};
      AgreeingListsDistinct(r.tables);
      UsedIdsCompiled(ms, r.tables);
    }
  }

  lemma StaysSetTrans(h1: seq<int>, h2: seq<int>, h3: seq<int>)
    requires StaysSet(h1, h2) && StaysSet(h2, h3)
    ensures StaysSet(h1, h3)
  {
  }

  /** A build never clears a handle. */
  lemma {:induction false} BuildKeepsHandles(ms: seq<Mesh>, dlists: seq<DlistRecord>, data: seq<Byte>, k: nat, t: Tables)
    requires k <= |ms| && IdsInRange(ms, dlists, |t.handles|)
    ensures var r := BuildFrom(ms, dlists, data, k, t);
            r.Built? ==> StaysSet(t.handles, r.tables.handles)
    decreases |ms| - k
  {
    if k < |ms| {
      var s := BuildStep(ms[k], dlists, data, t);
      if s.Built? {
        BuildKeepsHandles(ms, dlists, data, k + 1, s.tables);
        var r := BuildFrom(ms, dlists, data, k + 1, s.tables);
        if r.Built? {
          StaysSetTrans(t.handles, s.tables.handles, r.tables.handles);
        }
      }
    }
  }

  /** After a build from mesh `k`, every id used by a mesh from `k` on has a handle. */
  lemma {:induction false} CompiledWhereUsed(ms: seq<Mesh>, dlists: seq<DlistRecord>, data: seq<Byte>, k: nat, t: Tables)
    requires k <= |ms| && IdsInRange(ms, dlists, |t.handles|)
    ensures var r := BuildFrom(ms, dlists, data, k, t);
            r.Built? ==> forall i :: k <= i < |ms| ==> r.tables.handles[ms[i].dlistid] != -1
    decreases |ms| - k
  {
    if k < |ms| {
      var s := BuildStep(ms[k], dlists, data, t);
      if s.Built? {
        CompiledWhereUsed(ms, dlists, data, k + 1, s.tables);
        BuildKeepsHandles(ms, dlists, data, k + 1, s.tables);
        var r := BuildFrom(ms, dlists, data, k + 1, s.tables);
        if r.Built? {
          var h := r.tables.handles;
          forall i | k <= i < |ms|
            ensures h[ms[i].dlistid] != -1
          {
            if i == k {
              assert s.tables.handles[ms[k].dlistid] != -1;
            }
          }
        }
      }
    }
  }

  /** The scene object as far as the loader's tables go. */
  class Scene {
    /** Scene bounds: min_x, min_y, min_z, max_x, max_y, max_z. */
    var bounds: Box
    /** The display-list handle table (scene->dlists). */
    var handles: array<int>
    /** scene->meshes: the copied mesh records. */
    var meshes: seq<Mesh>
    /** What GL compiled, in order. */
    var lists: seq<Compiled>

    function State(): Tables
      reads this, handles
    {
      Tables(handles[..], meshes, lists, bounds)
    }

    /** The allocation of the handle table in CModel_load, every entry set to -1. */
    constructor(numDlists: nat)
      ensures State() == InitialTables(numDlists) && fresh(handles)
    {
      bounds := INITIAL_BOX;
      meshes := [];
      lists := [];
      var h := new int[numDlists];
      var i := 0;
      while i < numDlists
        invariant i <= numDlists
        invariant forall k :: 0 <= k < i ==> h[k] == -1
      {
        h[i] := -1;
        i := i + 1;
      }
      handles := h;
    }

    /** One iteration of build_meshes: copy the mesh and, if its display list has no
        handle yet, set the handle and compile the list. */
    method BuildMesh(mesh: Mesh, dlists: seq<DlistRecord>, data: seq<Byte>) returns (fault: Option<Fault>)
      requires mesh.dlistid < |dlists| && mesh.dlistid < handles.Length
      modifies this, handles
      ensures handles == old(handles)
      ensures match BuildStep(mesh, dlists, data, old(State()))
              case Failed(f) => fault == Some(f)
              case Built(t) => fault == None && State() == t
    {
      ghost var t := State();
      var rec := dlists[mesh.dlistid];
      meshes := meshes + [mesh];
      if handles[mesh.dlistid] == -1 {
        handles[mesh.dlistid] := |lists| + 1;
        assert handles[..] == t.handles[mesh.dlistid := |t.lists| + 1];
        var run := DoDlist(WordsAt(data, rec.startOfs), rec.size, bounds);
        if run.Fatal? {
          return Some(run.fault);
        }
        lists := lists + [Compiled(mesh.dlistid, run.m.trace)];
        bounds := run.m.bounds;
      } else {
        assert handles[..] == t.handles;
      }
      return None;
    }

    /** build_meshes: the bounds are reset, then each mesh is copied and its display
        list compiled if its handle is still -1. A fatal fault stops the build. */
    method BuildMeshes(ms: seq<Mesh>, dlists: seq<DlistRecord>, data: seq<Byte>) returns (fault: Option<Fault>)
      requires IdsInRange(ms, dlists, handles.Length)
      modifies this, handles
      ensures handles == old(handles)
      ensures var r := BuildFrom(ms, dlists, data, 0, old(State()).(meshes := [], bounds := INITIAL_BOX));
              match r
              case Failed(f) => fault == Some(f)
              case Built(t) => fault == None && State() == t
    {
      bounds := INITIAL_BOX;
      meshes := [];
      ghost var t0 := State();
      var k := 0;
      while k < |ms|
        invariant k <= |ms| && handles == old(handles)
        invariant BuildFrom(ms, dlists, data, k, State()) == BuildFrom(ms, dlists, data, 0, t0)
      {
        fault := BuildMesh(ms[k], dlists, data);
        if fault.Some? {
          return;
        }
        k := k + 1;
      }
      fault := None;
    }
  }
}
