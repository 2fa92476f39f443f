/** `cell_fracture_interior_handle`: after the booleans, the faces that came
    from cutting are hidden; the handler tags the vertices that touch no
    visible face into deform group 0, marks the edges between a hidden and a
    visible face as sharp, and finally shows every face again. */
module Interior {
  import opened Wrappers

  /** The part of a cell mesh the handler reads and writes: the vertex count,
      each face's vertex indices, each edge's linked faces, and the per-face
      `hide`, per-edge `smooth` and per-vertex group-0 weight (`None`: the
      vertex is not in the group). */
  datatype MeshData = MeshData(vertexCount: nat, faceVerts: seq<seq<nat>>, edgeFaces: seq<seq<nat>>,
                               faceHide: seq<bool>, edgeSmooth: seq<bool>, weight: seq<Option<real>>)

  /** The per-element layers match the topology and every index is in range. */
  predicate WellFormed(m: MeshData)
  {
    && |m.faceHide| == |m.faceVerts|
    && |m.edgeSmooth| == |m.edgeFaces|
    && |m.weight| == m.vertexCount
    && (forall f :: 0 <= f < |m.faceVerts| ==> forall v :: v in m.faceVerts[f] ==> v < m.vertexCount)
    && (forall e :: 0 <= e < |m.edgeFaces| ==> forall f :: f in m.edgeFaces[e] ==> f < |m.faceVerts|)
  }

  /** The handler's switches: `use_interior_vgroup`, `use_sharp_edges` and
      `use_sharp_edges_apply`. */
  datatype InteriorOptions = InteriorOptions(vgroup: bool, sharpEdges: bool, sharpEdgesApply: bool)

  // ---------------------------------------------------------------------------
  // Specification

  /** Some visible face among the first `n` uses vertex `v`. */
  predicate Touched(faceVerts: seq<seq<nat>>, hidden: seq<bool>, n: nat, v: nat)
    requires n <= |faceVerts| && |faceVerts| == |hidden|
  {
    n > 0 && (Touched(faceVerts, hidden, n - 1, v) || (!hidden[n - 1] && v in faceVerts[n - 1]))
  }

  /** A vertex the handler tags: no visible face uses it. */
  predicate Interior(m: MeshData, v: nat)
    requires |m.faceHide| == |m.faceVerts|
  {
    !Touched(m.faceVerts, m.faceHide, |m.faceVerts|, v)
  }

  lemma {:induction false} TouchedIff(faceVerts: seq<seq<nat>>, hidden: seq<bool>, n: nat, v: nat)
    requires n <= |faceVerts| && |faceVerts| == |hidden|
    ensures Touched(faceVerts, hidden, n, v) <==> exists f :: 0 <= f < n && !hidden[f] && v in faceVerts[f]
  {
    if n > 0 {
      TouchedIff(faceVerts, hidden, n - 1, v);
    }
  }

  /** A vertex is tagged exactly when every face using it is hidden; a loose
      vertex is therefore tagged. */
  lemma InteriorIff(m: MeshData, v: nat)
    requires |m.faceHide| == |m.faceVerts|
    ensures Interior(m, v) <==> forall f :: 0 <= f < |m.faceVerts| && v in m.faceVerts[f] ==> m.faceHide[f]
    ensures (forall f :: 0 <= f < |m.faceVerts| ==> v !in m.faceVerts[f]) ==> Interior(m, v)
  {
    TouchedIff(m.faceVerts, m.faceHide, |m.faceVerts|, v);
  }

  /** The set of `hide` flags of the faces linked to an edge. */
  function LinkedHideFlags(faces: seq<nat>, hidden: seq<bool>): set<bool>
    requires forall f :: f in faces ==> f < |hidden|
  {
    set f | f in faces :: hidden[f]
  }

  /** The test of the sharp-edge loop: the linked faces carry two distinct
      `hide` values. */
  predicate Sharp(m: MeshData, e: nat)
    requires WellFormed(m) && e < |m.edgeFaces|
  {
    |LinkedHideFlags(m.edgeFaces[e], m.faceHide)| == 2
  }

  /** An edge is sharp exactly when it links a hidden and a visible face. */
  lemma SharpIff(m: MeshData, e: nat)
    requires WellFormed(m) && e < |m.edgeFaces|
    ensures Sharp(m, e) <==>
      (exists f :: f in m.edgeFaces[e] && m.faceHide[f]) && (exists f :: f in m.edgeFaces[e] && !m.faceHide[f])
  {
    var faces := m.edgeFaces[e];
    var s := LinkedHideFlags(faces, m.faceHide);
    if (exists f :: f in faces && m.faceHide[f]) && (exists f :: f in faces && !m.faceHide[f]) {
      var f1 :| f1 in faces && m.faceHide[f1];
      var f0 :| f0 in faces && !m.faceHide[f0];
      assert true in s && false in s;
      assert {false, true} <= s;
      forall x | x in s
        ensures x in {false, true}
      {
        if x {
          assert x == true;
        } else {
          assert x == false;
        }
      }
      assert s == {false, true};
      assert |{false, true}| == 2;
    } else if exists f :: f in faces && m.faceHide[f] {
      assert s == {true};
    } else if exists f :: f in faces && !m.faceHide[f] {
      assert s == {false};
    } else {
      assert s == {};
    }
  }

  /** The group-0 weights after tagging: 1.0 on every interior vertex. */
  function TaggedWeights(m: MeshData): (w: seq<Option<real>>)
    requires WellFormed(m)
  {
    seq(m.vertexCount, v requires 0 <= v < m.vertexCount => if Interior(m, v) then Some(1.0) else m.weight[v])
  }

  /** The smooth flags after the sharp-edge loop: cleared on sharp edges. */
  function SharpenedSmooth(m: MeshData): (s: seq<bool>)
    requires WellFormed(m)
  {
    seq(|m.edgeFaces|, e requires 0 <= e < |m.edgeFaces| => if Sharp(m, e) then false else m.edgeSmooth[e])
  }

  function AllShown(n: nat): (hidden: seq<bool>)
  {
    seq(n, _ => false)
  }

  /** One mesh after the handler: tags from the hidden flags it found, sharp
      edges from the same flags, then every face shown. */
  function Handled(m: MeshData, opts: InteriorOptions): (r: MeshData)
    requires WellFormed(m)
  {
    m.(weight := if opts.vgroup then TaggedWeights(m) else m.weight,
       edgeSmooth := if opts.sharpEdges then SharpenedSmooth(m) else m.edgeSmooth,
       faceHide := AllShown(|m.faceHide|))
  }

  /** What the handler promises for one mesh: with the group option, a vertex
      weighs 1.0 when every face using it was hidden and keeps its weight
      otherwise; with the sharp option, an edge loses `smooth` exactly when it
      linked a hidden and a visible face; every face ends up shown; the
      topology is untouched. */
  lemma HandledMeaning(m: MeshData, opts: InteriorOptions)
    requires WellFormed(m)
    ensures var r := Handled(m, opts);
      && WellFormed(r)
      && r.vertexCount == m.vertexCount && r.faceVerts == m.faceVerts && r.edgeFaces == m.edgeFaces
      && (forall f :: 0 <= f < |r.faceHide| ==> !r.faceHide[f])
      && (forall v :: 0 <= v < m.vertexCount ==>
            r.weight[v] == if opts.vgroup && (forall f :: 0 <= f < |m.faceVerts| && v in m.faceVerts[f] ==> m.faceHide[f])
                           then Some(1.0) else m.weight[v])
      && (forall e :: 0 <= e < |m.edgeFaces| ==>
            r.edgeSmooth[e] == if opts.sharpEdges && (exists f :: f in m.edgeFaces[e] && m.faceHide[f])
                                  && (exists f :: f in m.edgeFaces[e] && !m.faceHide[f])
                               then false else m.edgeSmooth[e])
  {
    forall v | 0 <= v < m.vertexCount {
      InteriorIff(m, v);
    }
    forall e | 0 <= e < |m.edgeFaces| {
      SharpIff(m, e);
    }
  }

  /** Once every face is shown no edge is sharp. */
  lemma ShownNotSharp(m: MeshData, e: nat)
    requires WellFormed(m) && e < |m.edgeFaces|
    requires forall f :: 0 <= f < |m.faceHide| ==> !m.faceHide[f]
    ensures !Sharp(m, e)
  {
    SharpIff(m, e);
  }

  /** Running the handler on a mesh it has already handled changes nothing. */
  lemma HandledIdempotent(m: MeshData, opts: InteriorOptions)
    requires WellFormed(m)
    ensures WellFormed(Handled(m, opts))
    ensures Handled(Handled(m, opts), opts) == Handled(m, opts)
  {
    var r := Handled(m, opts);
    HandledMeaning(m, opts);
    var rr := Handled(r, opts);
    if opts.vgroup {
      forall v | 0 <= v < r.vertexCount
        ensures TaggedWeights(r)[v] == r.weight[v]
      {
        InteriorIff(r, v);
        InteriorIff(m, v);
      }
    }
    if opts.sharpEdges {
      forall e | 0 <= e < |r.edgeFaces|
        ensures SharpenedSmooth(r)[e] == r.edgeSmooth[e]
      {
        ShownNotSharp(r, e);
      }
    }
  }

  // ---------------------------------------------------------------------------
  // The bmesh of one cell

  class CellMesh {
    const vertexCount: nat
    const faceVerts: seq<seq<nat>>
    const edgeFaces: seq<seq<nat>>
    var faceHide: seq<bool>
    var edgeSmooth: seq<bool>
    var weight: seq<Option<real>>

    function Data(): MeshData
      reads this
    {
      MeshData(vertexCount, faceVerts, edgeFaces, faceHide, edgeSmooth, weight)
    }

    predicate Valid()
      reads this
    {
      WellFormed(Data())
    }

    constructor (m: MeshData)
      requires WellFormed(m)
      ensures Data() == m && Valid()
    {
      vertexCount, faceVerts, edgeFaces := m.vertexCount, m.faceVerts, m.edgeFaces;
      faceHide, edgeSmooth, weight := m.faceHide, m.edgeSmooth, m.weight;
    }

    /** The interior-group step: every vertex starts tagged, each visible
        face untags its vertices, and the tagged vertices get weight 1.0. */
    method TagInterior()
      requires Valid()
      modifies this
      ensures Data() == old(Data()).(weight := TaggedWeights(old(Data())))
    {
      var tag := new bool[vertexCount](_ => true);
      for f := 0 to |faceVerts|
        modifies tag
        invariant forall v :: 0 <= v < vertexCount ==> tag[v] == !Touched(faceVerts, faceHide, f, v)
      {
        if !faceHide[f] {
          var vs := faceVerts[f];
          for k := 0 to |vs|
            modifies tag
            invariant forall v :: 0 <= v < vertexCount ==>
              tag[v] == !(Touched(faceVerts, faceHide, f, v) || v in vs[..k])
          {
            assert vs[k] in faceVerts[f];
            assert vs[..k + 1] == vs[..k] + [vs[k]];
            tag[vs[k]] := false;
          }
          assert vs[..|vs|] == vs;
        }
      }
      ghost var m := Data();
      for v := 0 to vertexCount
        modifies this
        invariant Data() == m.(weight := weight)
        invariant |weight| == vertexCount
        invariant forall u :: 0 <= u < vertexCount ==>
          weight[u] == if u < v && Interior(m, u) then Some(1.0) else m.weight[u]
      {
        if tag[v] {
          weight := weight[v := Some(1.0)];
        }
      }
    }

    /** The sharp-edge step: an edge whose linked faces carry both `hide`
        values loses `smooth`. */
    method MarkSharpEdges()
      requires Valid()
      modifies this
      ensures Data() == old(Data()).(edgeSmooth := SharpenedSmooth(old(Data())))
    {
      ghost var m := Data();
      for e := 0 to |edgeFaces|
        invariant Data() == m.(edgeSmooth := edgeSmooth)
        invariant |edgeSmooth| == |edgeFaces|
        invariant forall d :: 0 <= d < |edgeFaces| ==>
          edgeSmooth[d] == if d < e && Sharp(m, d) then false else m.edgeSmooth[d]
      {
        if |LinkedHideFlags(edgeFaces[e], faceHide)| == 2 {
          edgeSmooth := edgeSmooth[e := false];
        }
      }
    }

    /** Every face is shown again. */
    method ShowFaces()
      requires Valid()
      modifies this
      ensures Data() == old(Data()).(faceHide := AllShown(|old(faceHide)|))
    {
      ghost var m := Data();
      for f := 0 to |faceHide|
        invariant Data() == m.(faceHide := faceHide)
        invariant |faceHide| == |m.faceHide|
        invariant forall g :: 0 <= g < |faceHide| ==> faceHide[g] == if g < f then false else m.faceHide[g]
      {
        faceHide := faceHide[f := false];
      }
    }

    /** The handler's body for this mesh. */
    method Handle(opts: InteriorOptions)
      requires Valid()
      modifies this
      ensures Valid()
      ensures Data() == Handled(old(Data()), opts)
    {
      ghost var m := Data();
      if opts.vgroup {
        TagInterior();
      }
      if opts.sharpEdges {
        MarkSharpEdges();
      }
      ShowFaces();
      HandledMeaning(m, opts);
    }
  }

  /** `cell_fracture_interior_handle(objects, ...)`: with no option set the
      assertion fails and nothing changes; otherwise every mesh is handled,
      once, however often it appears in the list. */
  method InteriorHandle(objects: seq<CellMesh>, opts: InteriorOptions)
    returns (r: Result<(), FractureError>)
    requires forall o :: o in objects ==> o.Valid()
    modifies set o | o in objects
    ensures r.Err? <==> !(opts.vgroup || opts.sharpEdges || opts.sharpEdgesApply)
    ensures r.Err? ==> r.error == NoInteriorOption && forall o :: o in objects ==> o.Data() == old(o.Data())
    ensures r.Ok? ==> forall o :: o in objects ==>
      o.Valid() && WellFormed(old(o.Data())) && o.Data() == Handled(old(o.Data()), opts)
  {
    if !(opts.vgroup || opts.sharpEdges || opts.sharpEdgesApply) {
      return Err(NoInteriorOption);
    }
    for i := 0 to |objects|
      invariant forall o :: o in objects ==> o.Valid()
      invariant forall o :: o in objects ==> WellFormed(old(o.Data()))
      invariant forall o :: o in objects[..i] ==> o.Data() == Handled(old(o.Data()), opts)
      invariant forall o :: o in objects && o !in objects[..i] ==> o.Data() == old(o.Data())
    {
      var o := objects[i];
      if o in objects[..i] {
        HandledIdempotent(old(o.Data()), opts);
      }
      o.Handle(opts);
      assert objects[..i + 1] == objects[..i] + [o];
    }
    assert objects[..|objects|] == objects;
    return Ok(());
  }
}
