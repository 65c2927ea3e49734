/** `ModelManager` (model_manager.cpp): loading a subset of the Wavefront OBJ format into an
    interleaved vertex list, eight floats per vertex, cached per file name.

    Reading the file is outside the model: a file is given as its lines, each already split by
    strtok into a tag and the tokens after it, and each token comes with the value `atof` gives it
    and the values `atoi` gives its '/'-separated fields. A file that opens is one present in the
    `files` map. Floats are exact reals. */
module ModelManager {
  import opened Vectors
  import opened Wrappers

  /** Capacity of each of the `v`, `vt` and `vn` attribute arrays, and floats per vertex. */
  const VERTEX_LIMIT: nat := 2000
  const STRIDE: nat := 8

  /** One token of a line: `atof` of it, and `atoi` of each of its '/'-separated fields. */
  datatype Token = Token(value: real, fields: seq<int>)

  /** One line: its first token and the tokens after it. */
  datatype Line = Line(tag: string, args: seq<Token>)

  /** The loader's locals: the three attribute arrays, their counters and the vertex list. */
  datatype ObjState = ObjState(v: seq<Vec3>, vt: seq<Vec3>, vn: seq<Vec3>,
                               vCount: nat, vtCount: nat, vnCount: nat, list: seq<real>)

  /** The arrays keep their fixed size and the counters stay within it. */
  predicate Sized(st: ObjState) {
    |st.v| == VERTEX_LIMIT && |st.vt| == VERTEX_LIMIT && |st.vn| == VERTEX_LIMIT
    && st.vCount <= VERTEX_LIMIT && st.vtCount <= VERTEX_LIMIT && st.vnCount <= VERTEX_LIMIT
  }

  /** Value-initialised arrays (all zero), zero counters and an empty list. */
  function Start(): (st: ObjState)
    ensures Sized(st) && st.list == []
  {
    ObjState(seq(VERTEX_LIMIT, _ => Zero), seq(VERTEX_LIMIT, _ => Zero), seq(VERTEX_LIMIT, _ => Zero), 0, 0, 0, [])
  }

  /** A face corner names a position, a texture coordinate and a normal by their 1-based
      numbers, all inside the attribute arrays. */
  predicate CornerOk(tok: Token) {
    |tok.fields| >= 3
    && 1 <= tok.fields[0] <= VERTEX_LIMIT && 1 <= tok.fields[1] <= VERTEX_LIMIT && 1 <= tok.fields[2] <= VERTEX_LIMIT
  }

  /** What the source needs of a line to stay defined: the tokens it reads exist, the attribute
      array written has room, and every face corner indexes inside the arrays. */
  predicate LineOk(st: ObjState, line: Line) {
    if line.tag == "v" then |line.args| >= 3 && st.vCount < VERTEX_LIMIT
    else if line.tag == "vt" then |line.args| >= 2 && st.vtCount < VERTEX_LIMIT
    else if line.tag == "vn" then |line.args| >= 3 && st.vnCount < VERTEX_LIMIT
    else if line.tag == "f" then |line.args| >= 3 && CornerOk(line.args[0]) && CornerOk(line.args[1]) && CornerOk(line.args[2])
    else true
  }

  /** `InsertData`: the eight floats of one face corner, position v[a-1], then normal vn[c-1],
      then the first two components of the texture coordinate vt[b-1]. */
  function Vertex(v: seq<Vec3>, vt: seq<Vec3>, vn: seq<Vec3>, tok: Token): seq<real>
    requires |v| == |vt| == |vn| == VERTEX_LIMIT && CornerOk(tok)
  {
    var p, t, n := v[tok.fields[0] - 1], vt[tok.fields[1] - 1], vn[tok.fields[2] - 1];
    [p.x, p.y, p.z, n.x, n.y, n.z, t.x, t.y]
  }

  /** The effect of one line of the file. */
  function Step(st: ObjState, line: Line): (r: ObjState)
    requires Sized(st) && LineOk(st, line)
    ensures Sized(r)
  {
    var a := line.args;
    if line.tag == "v" then
      st.(v := st.v[st.vCount := Vec3(a[0].value, a[1].value, a[2].value)], vCount := st.vCount + 1)
    else if line.tag == "vt" then
      st.(vt := st.vt[st.vtCount := Vec3(a[0].value, a[1].value, 0.0)], vtCount := st.vtCount + 1)
    else if line.tag == "vn" then
      st.(vn := st.vn[st.vnCount := Vec3(a[0].value, a[1].value, a[2].value)], vnCount := st.vnCount + 1)
    else if line.tag == "f" then
      st.(list := st.list + Vertex(st.v, st.vt, st.vn, a[0]) + Vertex(st.v, st.vt, st.vn, a[1])
                 + Vertex(st.v, st.vt, st.vn, a[2]))
    else st
  }

  /** The loader's state after the given lines. */
  function Load(lines: seq<Line>): (st: ObjState)
    requires Loadable(lines)
    decreases |lines|, 1
    ensures Sized(st)
  {
    if lines == [] then Start() else Step(Load(lines[..|lines| - 1]), lines[|lines| - 1])
  }

  /** Every line of the file meets LineOk in the state the lines before it leave. */
  predicate Loadable(lines: seq<Line>)
    decreases |lines|, 0
  {
    lines == [] || (Loadable(lines[..|lines| - 1]) && LineOk(Load(lines[..|lines| - 1]), lines[|lines| - 1]))
  }

  /** The number of face lines. */
  function Faces(lines: seq<Line>): nat {
    if lines == [] then 0 else Faces(lines[..|lines| - 1]) + if lines[|lines| - 1].tag == "f" then 1 else 0
  }

  lemma {:induction false} LoadablePrefix(lines: seq<Line>, i: nat)
    requires Loadable(lines) && i <= |lines|
    ensures Loadable(lines[..i])
    decreases |lines|
  {
    if i < |lines| {
      assert lines[..|lines| - 1][..i] == lines[..i];
      LoadablePrefix(lines[..|lines| - 1], i);
    } else {
      assert lines[..i] == lines;
    }
  }

  /** The empty prefix loads to the starting state and the full prefix to the whole file. */
  lemma LoadEnds(lines: seq<Line>)
    requires Loadable(lines)
    ensures Loadable(lines[..0]) && Load(lines[..0]) == Start()
    ensures Loadable(lines[..|lines|]) && Load(lines[..|lines|]) == Load(lines)
  {
    assert lines[..0] == [];
    assert lines[..|lines|] == lines;
  }

  /** Loading one more line is one more Step. */
  lemma LoadSnoc(lines: seq<Line>, i: nat)
    requires Loadable(lines) && i < |lines|
    ensures Loadable(lines[..i]) && Loadable(lines[..i + 1])
    ensures LineOk(Load(lines[..i]), lines[i])
    ensures Load(lines[..i + 1]) == Step(Load(lines[..i]), lines[i])
  {
    LoadablePrefix(lines, i + 1);
    assert lines[..i + 1][..i] == lines[..i];
  }

  /** A line whose tag is none of v, vt, vn, f changes nothing; v, vt and vn lines fill the next
      slot of their array (vt with third component 0) and leave the list alone; a face line
      appends 3 × STRIDE floats and touches no array. */
  lemma StepEffect(st: ObjState, line: Line)
    requires Sized(st) && LineOk(st, line)
    ensures line.tag !in {"v", "vt", "vn", "f"} ==> Step(st, line) == st
    ensures line.tag == "v" ==>
              var r := Step(st, line);
              r.vCount == st.vCount + 1 && r.v[st.vCount] == Vec3(line.args[0].value, line.args[1].value, line.args[2].value)
              && (forall k | 0 <= k < VERTEX_LIMIT && k != st.vCount :: r.v[k] == st.v[k])
              && r.(v := st.v, vCount := st.vCount) == st
    ensures line.tag == "vt" ==>
              var r := Step(st, line);
              r.vtCount == st.vtCount + 1 && r.vt[st.vtCount] == Vec3(line.args[0].value, line.args[1].value, 0.0)
              && (forall k | 0 <= k < VERTEX_LIMIT && k != st.vtCount :: r.vt[k] == st.vt[k])
              && r.(vt := st.vt, vtCount := st.vtCount) == st
    ensures line.tag == "vn" ==>
              var r := Step(st, line);
              r.vnCount == st.vnCount + 1 && r.vn[st.vnCount] == Vec3(line.args[0].value, line.args[1].value, line.args[2].value)
              && (forall k | 0 <= k < VERTEX_LIMIT && k != st.vnCount :: r.vn[k] == st.vn[k])
              && r.(vn := st.vn, vnCount := st.vnCount) == st
    ensures line.tag == "f" ==>
              |Step(st, line).list| == |st.list| + 3 * STRIDE
              && Step(st, line).list[..|st.list|] == st.list
              && Step(st, line).(list := st.list) == st
  {
    StepList(st, line);
  }

  /** Only a face line lengthens the list, by 3 × STRIDE, and every line keeps what is there. */
  lemma StepList(st: ObjState, line: Line)
    requires Sized(st) && LineOk(st, line)
    ensures |Step(st, line).list| == |st.list| + if line.tag == "f" then 3 * STRIDE else 0
    ensures Step(st, line).list[..|st.list|] == st.list
  {
  }

  /** Reading a vertex back with the attribute layout `GetMesh` declares (position at float
      offset 0, normal at 3, texture coordinate at 6, stride 8) gives the attributes the corner
      names. */
  lemma VertexLayout(v: seq<Vec3>, vt: seq<Vec3>, vn: seq<Vec3>, tok: Token)
    requires |v| == |vt| == |vn| == VERTEX_LIMIT && CornerOk(tok)
    ensures |Vertex(v, vt, vn, tok)| == STRIDE
    ensures var r := Vertex(v, vt, vn, tok);
            Vec3(r[0], r[1], r[2]) == v[tok.fields[0] - 1]
            && Vec3(r[3], r[4], r[5]) == vn[tok.fields[2] - 1]
            && r[6] == vt[tok.fields[1] - 1].x && r[7] == vt[tok.fields[1] - 1].y
  {
  }

  /** The list holds 3 × STRIDE floats per face line, so `num_vertices` is three per face. */
  lemma {:induction false} LoadLength(lines: seq<Line>)
    requires Loadable(lines)
    ensures |Load(lines).list| == 3 * STRIDE * Faces(lines)
    ensures |Load(lines).list| % STRIDE == 0 && |Load(lines).list| / STRIDE == 3 * Faces(lines)
    decreases |lines|
  {
    if lines != [] {
      var init := lines[..|lines| - 1];
      LoadLength(init);
      StepList(Load(init), lines[|lines| - 1]);
    }
    WholeVertices(Faces(lines));
  }

  lemma WholeVertices(n: nat)
    ensures (3 * STRIDE * n) % STRIDE == 0 && (3 * STRIDE * n) / STRIDE == 3 * n
  {
    assert 3 * STRIDE * n == STRIDE * (3 * n) + 0;
  }

  /** Loading more lines only appends to the list. */
  lemma {:induction false} LoadExtends(lines: seq<Line>, i: nat)
    requires Loadable(lines) && i <= |lines|
    ensures Loadable(lines[..i])
    ensures |Load(lines[..i]).list| <= |Load(lines).list|
    ensures Load(lines).list[..|Load(lines[..i]).list|] == Load(lines[..i]).list
    decreases |lines|
  {
    LoadablePrefix(lines, i);
    if i < |lines| {
      var init := lines[..|lines| - 1];
      assert init[..i] == lines[..i];
      LoadExtends(init, i);
      StepList(Load(init), lines[|lines| - 1]);
    } else {
      assert lines[..i] == lines;
    }
  }

  /** A mesh: the file name it came from and `num_vertices` (the GL buffers are left out). */
  datatype Mesh = Mesh(modelFileName: string, instanced: bool, numVertices: nat)

  class ModelManager {
    /** `vertices_list`: the vertex list of every file loaded so far. */
    var verticesList: map<string, seq<real>>

    constructor()
      ensures verticesList == map[]
    {
      verticesList := map[];
    }

    /** `LoadObj`: a cached list is returned as it is, without reading; a file that does not open
        gives no list and no cache entry; otherwise the file is loaded line by line and its list
        is cached under its name. */
    method LoadObj(name: string, files: map<string, seq<Line>>) returns (r: Option<seq<real>>)
      requires name !in verticesList && name in files ==> Loadable(files[name])
      modifies this
      ensures name in old(verticesList) ==> r == Some(old(verticesList)[name]) && verticesList == old(verticesList)
      ensures name !in old(verticesList) && name !in files ==> r == None && verticesList == old(verticesList)
      ensures name !in old(verticesList) && name in files ==>
                r == Some(Load(files[name]).list) && verticesList == old(verticesList)[name := r.value]
    {
      if name in verticesList {
        return Some(verticesList[name]);
      }
      if name !in files {
        return None;
      }
      verticesList := verticesList[name := []];
      var list := ReadLines(files[name]);
      verticesList := verticesList[name := list];
      r := Some(list);
    }

    /** The read loop of `LoadObj`: three fresh attribute arrays, zero counters and an empty list,
        then every line in turn. */
    static method ReadLines(lines: seq<Line>) returns (list: seq<real>)
      requires Loadable(lines)
      ensures list == Load(lines).list
    {
      var v := new Vec3[VERTEX_LIMIT](_ => Zero);
      var vt := new Vec3[VERTEX_LIMIT](_ => Zero);
      var vn := new Vec3[VERTEX_LIMIT](_ => Zero);
      var vCount, vnCount, vtCount := 0, 0, 0;
      list := [];
      LoadEnds(lines);
      assert v[..] == vt[..] == vn[..] == Start().v;
      for i := 0 to |lines|
        invariant Loadable(lines[..i])
        invariant Load(lines[..i]) == ObjState(v[..], vt[..], vn[..], vCount, vtCount, vnCount, list)
      {
        LoadSnoc(lines, i);
        vCount, vtCount, vnCount, list := ReadLine(lines[i], v, vt, vn, vCount, vtCount, vnCount, list);
      }
    }

    /** One pass of the loop in `LoadObj`: dispatch on the line's tag. */
    static method ReadLine(line: Line, v: array<Vec3>, vt: array<Vec3>, vn: array<Vec3>,
                           vCount: nat, vtCount: nat, vnCount: nat, list: seq<real>)
      returns (vCount': nat, vtCount': nat, vnCount': nat, list': seq<real>)
      requires v != vt && v != vn && vt != vn
      requires Sized(ObjState(v[..], vt[..], vn[..], vCount, vtCount, vnCount, list))
      requires LineOk(ObjState(v[..], vt[..], vn[..], vCount, vtCount, vnCount, list), line)
      modifies v, vt, vn
      ensures ObjState(v[..], vt[..], vn[..], vCount', vtCount', vnCount', list')
           == Step(ObjState(old(v[..]), old(vt[..]), old(vn[..]), vCount, vtCount, vnCount, list), line)
    {
      vCount', vtCount', vnCount', list' := vCount, vtCount, vnCount, list;
      if line.tag == "v" {
        v[vCount] := Vec3(line.args[0].value, line.args[1].value, line.args[2].value);
        vCount' := vCount + 1;
      } else if line.tag == "vt" {
        vt[vtCount] := Vec3(line.args[0].value, line.args[1].value, 0.0);
        vtCount' := vtCount + 1;
      } else if line.tag == "vn" {
        vn[vnCount] := Vec3(line.args[0].value, line.args[1].value, line.args[2].value);
        vnCount' := vnCount + 1;
      } else if line.tag == "f" {
        list' := InsertData(list', line.args[0], v, vt, vn);
        list' := InsertData(list', line.args[1], v, vt, vn);
        list' := InsertData(list', line.args[2], v, vt, vn);
      }
    }

    /** `InsertData`: appends one corner's eight floats to the list. */
    static method InsertData(list: seq<real>, tok: Token, v: array<Vec3>, vt: array<Vec3>, vn: array<Vec3>)
      returns (r: seq<real>)
      requires v.Length == VERTEX_LIMIT && vt.Length == VERTEX_LIMIT && vn.Length == VERTEX_LIMIT
      requires CornerOk(tok)
      ensures r == list + Vertex(v[..], vt[..], vn[..], tok)
    {
      var a, b, c := tok.fields[0], tok.fields[1], tok.fields[2];
      r := list + [v[a - 1].x, v[a - 1].y, v[a - 1].z];
      r := r + [vn[c - 1].x, vn[c - 1].y, vn[c - 1].z];
      r := r + [vt[b - 1].x, vt[b - 1].y];
    }

    /** `GetMesh` without its GL calls: no mesh when the file does not load, otherwise a mesh whose
        `num_vertices` is three per face line of the file. */
    method GetMesh(name: string, instanced: bool, files: map<string, seq<Line>>) returns (mesh: Option<Mesh>)
      requires name !in verticesList && name in files ==> Loadable(files[name])
      modifies this
      ensures name !in old(verticesList) && name !in files <==> mesh == None
      ensures mesh.Some? ==> name in verticesList && mesh.value.modelFileName == name
                             && mesh.value.numVertices == |verticesList[name]| / STRIDE
      ensures name !in old(verticesList) && name in files ==>
                mesh.Some? && mesh.value.numVertices == 3 * Faces(files[name])
      ensures name in old(verticesList) || name !in files ==> verticesList == old(verticesList)
      ensures name !in old(verticesList) && name in files ==>
                verticesList == old(verticesList)[name := Load(files[name]).list]
    {
      var vertices := LoadObj(name, files);
      if vertices == None {
        return None;
      }
      if name !in old(verticesList) {
        LoadLength(files[name]);
      }
      mesh := Some(Mesh(name, instanced, |vertices.value| / STRIDE));
    }
  }
}
