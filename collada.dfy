/** The COLLADA writer of the FMDL model exporter: the list helpers that
    reshape vertex and face data, the numbering of the ids the writer hands
    out, and the element trees it builds for geometries, polygon lists,
    materials, scenes and accessors. */
module Collada {
  import opened Wrappers
  import opened Bytes
  import opened XmlElements

  // ------------------------------------------------------------ _fixBufferForBlender

  function Min(a: nat, b: nat): nat
  {
    if a < b then a else b
  }

  /** The buffer with every fourth item (the W of each position) removed:
      the first three of every group of four are kept, in order. */
  function Fixed<T>(data: seq<T>): seq<T>
    decreases |data|
  {
    if |data| == 0 then [] else data[..Min(3, |data|)] + Fixed(data[Min(4, |data|)..])
  }

  /** One turn of the loop: the group starting at `i` contributes its first
      three items (fewer at the end) and the rest starts four items on. */
  lemma FixedStep<T>(data: seq<T>, i: nat)
    requires i < |data|
    ensures Fixed(data[i..]) == data[i..Min(i + 3, |data|)] + Fixed(data[Min(i + 4, |data|)..])
  {
    var s := data[i..];
    assert s[..Min(3, |s|)] == data[i..Min(i + 3, |data|)];
    assert s[Min(4, |s|)..] == data[Min(i + 4, |data|)..];
  }

  /** `_fixBufferForBlender`: every item at an index 3 (mod 4) is dropped. */
  method FixBufferForBlender<T>(data: seq<T>) returns (res: seq<T>)
    ensures res == Fixed(data)
  {
    res := [];
    var i := 0;
    while i < |data|
      invariant i % 4 == 0
      invariant Fixed(data) == res + Fixed(data[Min(i, |data|)..])
    {
      FixedStep(data, i);
      var chunk := data[i..Min(i + 3, |data|)];
      assert res + (chunk + Fixed(data[Min(i + 4, |data|)..])) == (res + chunk) + Fixed(data[Min(i + 4, |data|)..]);
      res := res + chunk;
      i := i + 4;
    }
    assert data[Min(i, |data|)..] == [];
  }

  /** Three of every four items survive, plus up to three of a last short group. */
  lemma {:induction false} FixedLength<T>(data: seq<T>)
    ensures |Fixed(data)| == 3 * (|data| / 4) + Min(|data| % 4, 3)
    decreases |data|
  {
    if |data| >= 4 {
      FixedLength(data[4..]);
      assert |data[4..]| / 4 == |data| / 4 - 1 && |data[4..]| % 4 == |data| % 4;
    }
  }

  /** A buffer shorter than four items is kept whole. */
  lemma FixedShort<T>(data: seq<T>)
    ensures |data| < 4 ==> Fixed(data) == data
  {
    assert data[Min(4, |data|)..] == [] || |data| >= 4;
  }

  /** Item `j` of the result is item `4 * (j / 3) + j % 3` of the input, an
      index that is never 3 (mod 4): the order is kept and nothing dropped
      comes back. */
  lemma {:induction false} FixedAt<T>(data: seq<T>, j: nat)
    requires j < |Fixed(data)|
    ensures 4 * (j / 3) + j % 3 < |data|
    ensures (4 * (j / 3) + j % 3) % 4 != 3
    ensures Fixed(data)[j] == data[4 * (j / 3) + j % 3]
    decreases |data|
  {
    if j >= 3 {
      FixedShort(data);
      FixedAt(data[4..], j - 3);
      assert (j - 3) / 3 == j / 3 - 1 && (j - 3) % 3 == j % 3;
    }
  }

  /** Every item at an index other than 3 (mod 4) is kept, at position
      `3 * (i / 4) + i % 4`. */
  lemma FixedKeeps<T>(data: seq<T>, i: nat)
    requires i < |data| && i % 4 != 3
    ensures 3 * (i / 4) + i % 4 < |Fixed(data)|
    ensures Fixed(data)[3 * (i / 4) + i % 4] == data[i]
  {
    var j := 3 * (i / 4) + i % 4;
    FixedLength(data);
    assert j / 3 == i / 4 && j % 3 == i % 4;
    if i / 4 == |data| / 4 {
      assert i % 4 < |data| % 4;
    }
    assert j < |Fixed(data)|;
    FixedAt(data, j);
  }

  // ------------------------------------------------------------ _makePlistForLod

  /** A level of detail of a shape: its primitive format and its faces, each
      a list of vertex indices. */
  datatype Lod = Lod(primFmt: string, faces: seq<seq<nat>>)

  /** The element a primitive format becomes: triangles for triangles and
      for both kinds of line, nothing for any other format. */
  function PlistTag(fmt: string): (r: Option<string>)
    ensures r.Some? <==> fmt == "triangles" || fmt == "line_strip" || fmt == "line_loop"
    ensures r.Some? ==> r.value == "triangles"
  {
    if fmt == "line_strip" || fmt == "line_loop" then Some("triangles")
    else if fmt == "triangles" then Some("triangles")
    else None
  }

  /** The length of each face, in order. */
  function Sizes(faces: seq<seq<nat>>): seq<nat>
  {
    if |faces| == 0 then [] else Sizes(faces[..|faces| - 1]) + [|faces[|faces| - 1]|]
  }

  /** All faces one after the other. */
  function Flatten(faces: seq<seq<nat>>): seq<nat>
  {
    if |faces| == 0 then [] else Flatten(faces[..|faces| - 1]) + faces[|faces| - 1]
  }

  function Sum(ns: seq<nat>): nat
  {
    if |ns| == 0 then 0 else Sum(ns[..|ns| - 1]) + ns[|ns| - 1]
  }

  /** There is one size per face, and the sizes add up to the number of
      indices in the flattened list, so `vcount` accounts for all of `p`. */
  lemma {:induction false} SizesSum(faces: seq<seq<nat>>)
    ensures |Sizes(faces)| == |faces|
    ensures Sum(Sizes(faces)) == |Flatten(faces)|
    decreases |faces|
  {
    if |faces| > 0 {
      var init := faces[..|faces| - 1];
      SizesSum(init);
      var s := Sizes(faces);
      assert s[..|s| - 1] == Sizes(init);
    }
  }

  /** Face `k` sits in the flattened list right after the faces before it. */
  lemma {:induction false} FlattenAt(faces: seq<seq<nat>>, k: nat)
    requires k < |faces|
    ensures |Flatten(faces[..k])| + |faces[k]| <= |Flatten(faces)|
    ensures Flatten(faces)[|Flatten(faces[..k])|..|Flatten(faces[..k])| + |faces[k]|] == faces[k]
    decreases |faces|
  {
    var init := faces[..|faces| - 1];
    if k == |faces| - 1 {
      assert faces[..k] == init;
    } else {
      FlattenAt(init, k);
      assert init[..k] == faces[..k];
      var f := Flatten(init);
      var a := |Flatten(faces[..k])|;
      assert Flatten(faces)[a..a + |faces[k]|] == f[a..a + |faces[k]|];
    }
  }

  /** The loop of `_makePlistForLod` that gathers the face sizes and the
      flattened face list. */
  method FaceLists(faces: seq<seq<nat>>) returns (sizes: seq<nat>, flat: seq<nat>)
    ensures sizes == Sizes(faces) && flat == Flatten(faces)
  {
    sizes := [];
    flat := [];
    var i := 0;
    while i < |faces|
      invariant 0 <= i <= |faces|
      invariant sizes == Sizes(faces[..i]) && flat == Flatten(faces[..i])
    {
      assert faces[..i + 1][..i] == faces[..i];
      sizes := sizes + [|faces[i]|];
      flat := flat + faces[i];
      i := i + 1;
    }
    assert faces[..i] == faces;
  }

  /** `' '.join(map(str, ns))`. */
  function Spaced(ns: seq<nat>): string
  {
    if |ns| == 0 then ""
    else if |ns| == 1 then Decimal(ns[0])
    else Spaced(ns[..|ns| - 1]) + " " + Decimal(ns[|ns| - 1])
  }

  /** The index of the last space of `s`, if any. */
  function LastSpace(s: string): (r: Option<nat>)
    ensures r.Some? ==> r.value < |s|
  {
    if |s| == 0 then None
    else if s[|s| - 1] == ' ' then Some(|s| - 1)
    else LastSpace(s[..|s| - 1])
  }

  /** Reading a space-separated list of numbers back. */
  function Unspaced(s: string): seq<nat>
    decreases |s|
  {
    match LastSpace(s)
    case None => if |s| == 0 then [] else [ParseDecimal(s)]
    case Some(i) => Unspaced(s[..i]) + [ParseDecimal(s[i + 1..])]
  }

  lemma {:induction false} LastSpaceAfter(a: string, d: string)
    requires forall k :: 0 <= k < |d| ==> d[k] != ' '
    ensures LastSpace(a + " " + d) == Some(|a|)
    decreases |d|
  {
    var s := a + " " + d;
    if |d| > 0 {
      assert s[..|s| - 1] == a + " " + d[..|d| - 1];
      LastSpaceAfter(a, d[..|d| - 1]);
    }
  }

  lemma {:induction false} NoSpace(d: string)
    requires forall k :: 0 <= k < |d| ==> d[k] != ' '
    ensures LastSpace(d) == None
    decreases |d|
  {
    if |d| > 0 {
      NoSpace(d[..|d| - 1]);
    }
  }

  lemma UnspacedSplit(a: string, d: string)
    requires forall k :: 0 <= k < |d| ==> d[k] != ' '
    ensures Unspaced(a + " " + d) == Unspaced(a) + [ParseDecimal(d)]
  {
    var s := a + " " + d;
    LastSpaceAfter(a, d);
    assert s[..|a|] == a && s[|a| + 1..] == d;
  }

  /** A non-empty sequence is its front followed by its last item. */
  lemma Snoc<T>(s: seq<T>)
    requires |s| > 0
    ensures s == s[..|s| - 1] + [s[|s| - 1]]
  {
  }

  lemma SpacedOne(ns: seq<nat>)
    requires |ns| == 1
    ensures Unspaced(Spaced(ns)) == ns
  {
    var d := Decimal(ns[0]);
    assert Spaced(ns) == d;
    NoSpace(d);
    DecimalRoundTrip(ns[0]);
    assert Unspaced(d) == [ParseDecimal(d)];
  }

  lemma SpacedMore(ns: seq<nat>)
    requires |ns| > 1 && Unspaced(Spaced(ns[..|ns| - 1])) == ns[..|ns| - 1]
    ensures Unspaced(Spaced(ns)) == ns
  {
    var init := ns[..|ns| - 1];
    var last := ns[|ns| - 1];
    var a := Spaced(init);
    var d := Decimal(last);
    calc {
      Unspaced(Spaced(ns));
      { assert Spaced(ns) == a + " " + d; }
      Unspaced(a + " " + d);
      { UnspacedSplit(a, d); }
      Unspaced(a) + [ParseDecimal(d)];
      { DecimalRoundTrip(last); }
      init + [last];
      { Snoc(ns); }
      ns;
    }
  }

  /** The text written for `vcount` and `p` reads back as the numbers it was
      made from. */
  lemma {:induction false} SpacedRoundTrip(ns: seq<nat>)
    ensures Unspaced(Spaced(ns)) == ns
    decreases |ns|
  {
    if |ns| == 1 {
      SpacedOne(ns);
    } else if |ns| > 1 {
      SpacedRoundTrip(ns[..|ns| - 1]);
      SpacedMore(ns);
    }
  }

  /** How an attribute value that may be missing is written (`str(None)`). */
  function AttrText(v: Option<string>): string
  {
    if v.Some? then v.value else "None"
  }

  /** `_makePlistForLod(lod, vid)`: nothing for an unsupported primitive
      format; otherwise a triangles element counting the faces, with an input
      referring to the vertices `vid` (not given this element as parent), a
      `vcount` child listing the face sizes and a `p` child listing all the
      face indices. */
  method MakePlist(lod: Lod, vid: string) returns (plist: Option<Element>)
    ensures plist.None? <==> PlistTag(lod.primFmt).None?
    ensures plist.Some? ==>
      var e := plist.value;
      fresh(e) && e.name == "triangles" && e.attrs == map["count" := Decimal(|lod.faces|)] &&
      e.text == None && e.parent == None && |e.children| == 3 &&
      fresh(e.children[0]) && e.children[0].name == "input" &&
      e.children[0].attrs == map["offset" := "0", "semantic" := "VERTEX", "source" := vid] &&
      e.children[0].parent == None &&
      fresh(e.children[1]) && e.children[1].name == "vcount" && e.children[1].parent == Some(e) &&
      e.children[1].text == Some(Spaced(Sizes(lod.faces))) &&
      fresh(e.children[2]) && e.children[2].name == "p" && e.children[2].parent == Some(e) &&
      e.children[2].text == Some(Spaced(Flatten(lod.faces)))
  {
    var tag := PlistTag(lod.primFmt);
    if tag.None? {
      return None;
    }
    var input := new Element("input", [], map["offset" := "0", "semantic" := "VERTEX", "source" := vid]);
    var e := new Element(tag.value, [input], map["count" := Decimal(|lod.faces|)]);
    var sizes, flat := FaceLists(lod.faces);
    var vcount := e.Child("vcount", [], map[]);
    vcount.SetText(Some(Spaced(sizes)));
    var p := e.Child("p", [], map[]);
    p.SetText(Some(Spaced(flat)));
    plist := Some(e);
  }

  // ------------------------------------------------------------ ids

  function GeometryId(n: nat): string
  {
    "geometry" + Decimal(n)
  }

  function VerticesId(n: nat): string
  {
    "vertices" + Decimal(n)
  }

  function MaterialId(n: nat): string
  {
    "material" + Decimal(n)
  }

  function EffectId(n: nat): string
  {
    "effect" + Decimal(n)
  }

  function SceneId(n: nat): string
  {
    "scene" + Decimal(n)
  }

  /** A prefix followed by a number names that number alone. */
  lemma NumberedInjective(prefix: string, m: nat, n: nat)
    requires prefix + Decimal(m) == prefix + Decimal(n)
    ensures m == n
  {
    assert Decimal(m) == (prefix + Decimal(m))[|prefix|..];
    assert Decimal(n) == (prefix + Decimal(n))[|prefix|..];
    DecimalInjective(m, n);
  }

  /** Different counts give different ids, so no two geometries, vertex
      lists, materials or scenes the writer numbers share an id. */
  lemma IdsDistinct(m: nat, n: nat)
    requires m != n
    ensures GeometryId(m) != GeometryId(n) && VerticesId(m) != VerticesId(n)
    ensures MaterialId(m) != MaterialId(n) && SceneId(m) != SceneId(n)
  {
    if GeometryId(m) == GeometryId(n) { NumberedInjective("geometry", m, n); }
    if VerticesId(m) == VerticesId(n) { NumberedInjective("vertices", m, n); }
    if MaterialId(m) == MaterialId(n) { NumberedInjective("material", m, n); }
    if SceneId(m) == SceneId(n) { NumberedInjective("scene", m, n); }
  }

  // ------------------------------------------------------------ attr_types

  /** An entry of `attr_types`: the displayed name, the COLLADA semantic and
      the parameter names. */
  datatype AttrType = AttrType(display: string, semantic: string, params: seq<string>)

  function AttrTypeOf(name: string): Option<AttrType>
  {
    if name == "_n0" then Some(AttrType("Normal", "NORMAL", ["X", "Y", "Z"]))
    else if name == "_p0" then Some(AttrType("Position", "POSITION", ["X", "Y", "Z"]))
    else if name == "_u0" then Some(AttrType("UV Map", "UV", ["U", "V"]))
    else if name == "_u1" then Some(AttrType("Secondary UV Map", "UV", ["U", "V"]))
    else if name == "_w0" then Some(AttrType("Weight", "WEIGHT", ["W"]))
    else None
  }

  /** The accessor attributes `_makeAccessorForAttribute` writes. */
  function AccessorAttrs(dataLen: nat, offs: nat, params: seq<string>, arrayId: nat): map<string, string>
  {
    map["count" := Decimal(dataLen * |params|), "offset" := Decimal(offs),
        "stride" := Decimal(|params|), "source" := "#array" + Decimal(arrayId)]
  }

  /** `_makeAccessorForAttribute`: nothing for an attribute outside
      `attr_types`; otherwise a `technique_common` element holding one
      accessor whose stride is the number of parameters, with one float
      `param` child per parameter, in order. `arrayId` stands for the
      Python object id the array element is named after. */
  method MakeAccessor(attrName: string, dataLen: nat, offs: nat, arrayId: nat) returns (tech: Option<Element>)
    ensures tech.None? <==> AttrTypeOf(attrName).None?
    ensures tech.Some? ==>
      var params := AttrTypeOf(attrName).value.params;
      var t := tech.value;
      fresh(t) && t.name == "technique_common" && t.attrs == map[] && |t.children| == 1 &&
      var acc := t.children[0];
      fresh(acc) && acc.name == "accessor" && acc.parent == Some(t) &&
      acc.attrs == AccessorAttrs(dataLen, offs, params, arrayId) &&
      Lookup(acc.attrs, "stride", None) == Some(Decimal(|params|)) &&
      |acc.children| == |params| &&
      forall k :: 0 <= k < |params| ==>
        acc.children[k].name == "param" && acc.children[k].parent == Some(acc) &&
        acc.children[k].attrs == map["name" := params[k], "type" := "float"]
  {
    var ty := AttrTypeOf(attrName);
    if ty.None? {
      return None;
    }
    var params := ty.value.params;
    var t := new Element("technique_common", [], map[]);
    var acc := t.Child("accessor", [], AccessorAttrs(dataLen, offs, params, arrayId));
    var i := 0;
    while i < |params|
      invariant 0 <= i <= |params|
      invariant fresh(t) && fresh(acc) && t != acc
      invariant t.name == "technique_common" && t.attrs == map[] && t.children == [acc]
      invariant acc.name == "accessor" && acc.parent == Some(t)
      invariant acc.attrs == AccessorAttrs(dataLen, offs, params, arrayId)
      invariant |acc.children| == i
      invariant forall k :: 0 <= k < i ==> acc.children[k] != acc && acc.children[k] != t
      invariant forall k :: 0 <= k < i ==>
        acc.children[k].name == "param" && acc.children[k].parent == Some(acc) &&
        acc.children[k].attrs == map["name" := params[k], "type" := "float"]
    {
      var _ := acc.Child("param", [], map["name" := params[i], "type" := "float"]);
      i := i + 1;
    }
    tech := Some(t);
  }

  // ------------------------------------------------------------ the writer

  /** What `addFSHP` did: attached its polygon lists, or found no mesh or no
      vertices to attach them to (an error is logged and nothing changes). */
  datatype FshpOutcome = Attached | NoMesh | NoVertices

  /** The levels of detail with a supported primitive format, in order. */
  function Supported(lods: seq<Lod>): (r: seq<Lod>)
    ensures |r| <= |lods|
    ensures forall k :: 0 <= k < |r| ==> r[k] in lods && PlistTag(r[k].primFmt).Some?
  {
    if |lods| == 0 then []
    else
      var last := lods[|lods| - 1];
      Supported(lods[..|lods| - 1]) + (if PlistTag(last.primFmt).Some? then [last] else [])
  }

  /** The polygon list made for `lod` against the vertices `vid`. */
  predicate PlistHead(e: Element, lod: Lod, vid: string)
    reads e, e.children
  {
    e.name == "triangles" && e.attrs == map["count" := Decimal(|lod.faces|)] && |e.children| == 3 &&
    e.children[0].name == "input" &&
    e.children[0].attrs == map["offset" := "0", "semantic" := "VERTEX", "source" := vid] &&
    e.children[1].name == "vcount" && e.children[1].text == Some(Spaced(Sizes(lod.faces))) &&
    e.children[2].name == "p" && e.children[2].text == Some(Spaced(Flatten(lod.faces)))
  }

  /** One turn of the `addFSHP` loop: the polygon list of `lod`, if its
      format is supported, is appended to `mesh`. */
  method AttachOne(mesh: Element, lod: Lod, vid: string) returns (added: Option<Element>)
    modifies mesh
    ensures added.Some? <==> PlistTag(lod.primFmt).Some?
    ensures mesh.name == old(mesh.name) && mesh.attrs == old(mesh.attrs)
    ensures mesh.text == old(mesh.text) && mesh.parent == old(mesh.parent)
    ensures added.None? ==> mesh.children == old(mesh.children)
    ensures added.Some? ==> mesh.children == old(mesh.children) + [added.value]
    ensures added.Some? ==> (var e := added.value;
      fresh(e) && fresh(e.children) && e != mesh && mesh !in e.children &&
      PlistHead(e, lod, vid) && e.parent == Some(mesh))
  {
    added := MakePlist(lod, vid);
    if added.Some? {
      var _, _ := mesh.Append(Elem(added.value));
    }
  }

  /** The loop of `addFSHP`: the polygon list of each supported level of
      detail is appended to `mesh`, in order. */
  method AttachPlists(mesh: Element, lods: seq<Lod>, vid: string)
    modifies mesh
    ensures mesh.name == old(mesh.name) && mesh.attrs == old(mesh.attrs)
    ensures mesh.text == old(mesh.text) && mesh.parent == old(mesh.parent)
    ensures |mesh.children| == |old(mesh.children)| + |Supported(lods)|
    ensures mesh.children[..|old(mesh.children)|] == old(mesh.children)
    ensures forall k :: 0 <= k < |Supported(lods)| ==>
      PlistHead(mesh.children[|old(mesh.children)| + k], Supported(lods)[k], vid)
  {
    ghost var made: seq<Element> := [];
    var i := 0;
    while i < |lods|
      invariant 0 <= i <= |lods|
      invariant mesh.children == old(mesh.children) + made && |made| == |Supported(lods[..i])|
      invariant mesh.name == old(mesh.name) && mesh.attrs == old(mesh.attrs)
      invariant mesh.text == old(mesh.text) && mesh.parent == old(mesh.parent)
      invariant forall k :: 0 <= k < |made| ==> made[k] != mesh && mesh !in made[k].children
      invariant forall k :: 0 <= k < |made| ==> PlistHead(made[k], Supported(lods[..i])[k], vid)
    {
      ghost var before := Supported(lods[..i]);
      var added := AttachOne(mesh, lods[i], vid);
      assert lods[..i + 1][..i] == lods[..i];
      if added.Some? {
        made := made + [added.value];
        assert Supported(lods[..i + 1]) == before + [lods[i]];
      } else {
        assert Supported(lods[..i + 1]) == before;
      }
      i := i + 1;
    }
    assert lods[..i] == lods;
    assert forall k :: 0 <= k < |made| ==> mesh.children[|old(mesh.children)| + k] == made[k];
  }

  /** The node `addScene` makes for geometry `g`: named after the
      geometry's id and name, holding one `instance_geometry` that refers to
      the geometry by its id. */
  predicate SceneNode(n: Element, g: Element)
    reads n, g, n.children
  {
    "id" in g.attrs && n.name == "node" &&
    n.attrs == map["id" := "node_" + g.attrs["id"], "name" := AttrText(Lookup(g.attrs, "name", None))] &&
    |n.children| == 1 && n.children[0].name == "instance_geometry" &&
    n.children[0].attrs == map["url" := "#" + g.attrs["id"]]
  }

  /** One turn of the `addScene` loop: the node for `g` is appended to the
      scene `s`, or, for a geometry without an id, a TypeError stops it
      first. */
  method AppendNode(s: Element, g: Element) returns (ok: bool)
    requires s != g
    modifies s
    ensures ok <==> "id" in g.attrs
    ensures s.name == old(s.name) && s.attrs == old(s.attrs) && s.text == old(s.text) && s.parent == old(s.parent)
    ensures !ok ==> s.children == old(s.children)
    ensures ok ==> |s.children| == |old(s.children)| + 1 && s.children[..|old(s.children)|] == old(s.children)
    ensures ok ==> var n := s.children[|old(s.children)|];
      fresh(n) && fresh(n.children) && SceneNode(n, g) && n.parent == Some(s)
  {
    var gid := g.Get("id", None);
    if gid.None? {
      return false;
    }
    var ig := new Element("instance_geometry", [], map["url" := "#" + gid.value]);
    var n := s.Child("node", [ig], map["id" := "node_" + gid.value, "name" := AttrText(g.Get("name", None))]);
    ok := true;
  }

  /** The loop of `addScene`: one node per geometry, in order, until a
      geometry without an id stops it. */
  method FillScene(s: Element, gs: seq<Element>) returns (ok: bool)
    requires s !in gs && s.children == []
    modifies s
    ensures s.name == old(s.name) && s.attrs == old(s.attrs) && s.text == old(s.text) && s.parent == old(s.parent)
    ensures |s.children| <= |gs| && (ok <==> |s.children| == |gs|)
    ensures !ok ==> "id" !in gs[|s.children|].attrs
    ensures forall k :: 0 <= k < |s.children| ==> SceneNode(s.children[k], gs[k]) && s.children[k].parent == Some(s)
  {
    var i := 0;
    while i < |gs|
      invariant 0 <= i <= |gs| && |s.children| == i
      invariant s.name == old(s.name) && s.attrs == old(s.attrs) && s.text == old(s.text) && s.parent == old(s.parent)
      invariant forall k :: 0 <= k < i ==> s.children[k] != s && s !in s.children[k].children
      invariant forall k :: 0 <= k < i ==> SceneNode(s.children[k], gs[k]) && s.children[k].parent == Some(s)
    {
      ok := AppendNode(s, gs[i]);
      if !ok {
        return;
      }
      i := i + 1;
    }
    ok := true;
  }

  class ColladaWriter {
    var cameras: seq<Element>
    var lights: seq<Element>
    var effects: seq<Element>
    var materials: seq<Element>
    var geometries: seq<Element>
    var scenes: seq<Element>
    var meshes: seq<Element>
    var vtxs: seq<Element>

    /** Every list starts empty. */
    constructor()
      ensures cameras == [] && lights == [] && effects == [] && materials == []
      ensures geometries == [] && scenes == [] && meshes == [] && vtxs == []
    {
      cameras := [];
      lights := [];
      effects := [];
      materials := [];
      geometries := [];
      scenes := [];
      meshes := [];
      vtxs := [];
    }

    /** `addFVTX(fvtx, name)`: a geometry numbered by the geometries so far,
        named `name` or else its id, holding a mesh that holds a vertices
        element numbered alike; the geometry, the mesh and the vertices are
        appended to their lists. */
    method AddFVTX(name: Option<string>)
      modifies this
      ensures var n := |old(geometries)|;
        |geometries| == n + 1 && geometries[..n] == old(geometries) &&
        |meshes| == |old(meshes)| + 1 && meshes[..|old(meshes)|] == old(meshes) &&
        |vtxs| == |old(vtxs)| + 1 && vtxs[..|old(vtxs)|] == old(vtxs) &&
        var g := geometries[n];
        var mesh := meshes[|meshes| - 1];
        var v := vtxs[|vtxs| - 1];
        fresh(g) && fresh(mesh) && fresh(v) &&
        g.name == "geometry" &&
        g.attrs == map["id" := GeometryId(n), "name" := if name.Some? then name.value else GeometryId(n)] &&
        g.children == [mesh] && g.parent == None &&
        mesh.name == "mesh" && mesh.attrs == map[] && mesh.children == [v] && mesh.parent == Some(g) &&
        v.name == "vertices" && v.attrs == map["id" := VerticesId(n)] && v.children == [] && v.parent == Some(mesh)
      ensures cameras == old(cameras) && lights == old(lights) && effects == old(effects)
      ensures materials == old(materials) && scenes == old(scenes)
    {
      var n := |geometries|;
      var gid := GeometryId(n);
      var vid := VerticesId(n);
      var nm := if name.Some? then name.value else gid;
      var g := new Element("geometry", [], map["id" := gid, "name" := nm]);
      geometries := geometries + [g];
      var mesh := g.Child("mesh", [], map[]);
      var v := mesh.Child("vertices", [], map["id" := vid]);
      meshes := meshes + [mesh];
      vtxs := vtxs + [v];
    }

    /** `addFSHP(fshp)`: with no mesh, or no vertices, nothing changes;
        otherwise the polygon list of each supported level of detail is
        appended to the last mesh, in order, referring to the last vertices
        element by its id. */
    method AddFSHP(lods: seq<Lod>) returns (outcome: FshpOutcome)
      modifies if |meshes| > 0 then {meshes[|meshes| - 1]} else {}
      ensures outcome == NoMesh <==> |meshes| == 0
      ensures outcome == NoVertices <==> |meshes| > 0 && |vtxs| == 0
      ensures outcome != Attached && |meshes| > 0 ==> unchanged(meshes[|meshes| - 1])
      ensures outcome == Attached ==>
        var mesh := meshes[|meshes| - 1];
        var base := |old(mesh.children)|;
        mesh.name == old(mesh.name) && mesh.attrs == old(mesh.attrs) &&
        mesh.text == old(mesh.text) && mesh.parent == old(mesh.parent) &&
        |mesh.children| == base + |Supported(lods)| && mesh.children[..base] == old(mesh.children) &&
        forall k :: 0 <= k < |Supported(lods)| ==>
          PlistHead(mesh.children[base + k], Supported(lods)[k], AttrText(Lookup(vtxs[|vtxs| - 1].attrs, "id", None)))
    {
      if |meshes| == 0 {
        return NoMesh;
      }
      if |vtxs| == 0 {
        return NoVertices;
      }
      var mesh := meshes[|meshes| - 1];
      var vid := AttrText(vtxs[|vtxs| - 1].Get("id", None));
      assert vid == AttrText(Lookup(vtxs[|vtxs| - 1].attrs, "id", None));
      AttachPlists(mesh, lods, vid);
      outcome := Attached;
    }

    /** `addFMAT(fmat)`: a material numbered by the materials so far, named
        after the FMAT, holding an `instance_effect` that refers to the effect
        numbered by the effects so far. The effect itself is never added to
        `effects`, so while `effects` is empty, as the constructor leaves it,
        every material refers to `#effect0`. */
    method AddFMAT(fmatName: string)
      modifies this
      ensures |materials| == |old(materials)| + 1 && materials[..|old(materials)|] == old(materials)
      ensures var m := materials[|old(materials)|];
        fresh(m) && m.name == "material" &&
        m.attrs == map["id" := MaterialId(|old(materials)|), "name" := fmatName] &&
        |m.children| == 1 && fresh(m.children[0]) && m.children[0].name == "instance_effect" &&
        m.children[0].attrs == map["url" := "#" + EffectId(|effects|)] &&
        (old(effects) == [] ==> m.children[0].attrs["url"] == "#effect0")
      ensures effects == old(effects) && cameras == old(cameras) && lights == old(lights)
      ensures geometries == old(geometries) && scenes == old(scenes)
      ensures meshes == old(meshes) && vtxs == old(vtxs)
    {
      var matid := MaterialId(|materials|);
      var effid := EffectId(|effects|);
      var m := new Element("material", [], map["id" := matid, "name" := fmatName]);
      materials := materials + [m];
      var _ := m.Child("instance_effect", [], map["url" := "#" + effid]);
    }

    /** `addScene()`: a scene numbered by the scenes so far and named
        `untitled` is appended, then one node per geometry, in order, with id
        `node_` and the geometry's id, the geometry's name, and an
        `instance_geometry` referring to it. A geometry without an id stops
        the loop with a TypeError, leaving the nodes made so far. */
    method AddScene() returns (r: Result<()>)
      modifies this
      ensures |scenes| == |old(scenes)| + 1 && scenes[..|old(scenes)|] == old(scenes)
      ensures var s := scenes[|old(scenes)|];
        fresh(s) && s.name == "visual_scene" &&
        s.attrs == map["id" := SceneId(|old(scenes)|), "name" := "untitled"] &&
        |s.children| <= |geometries| &&
        (forall k :: 0 <= k < |s.children| ==>
          SceneNode(s.children[k], geometries[k]) && s.children[k].parent == Some(s)) &&
        (r.Ok? <==> |s.children| == |geometries|) &&
        (r.Err? ==> r.error == TypeError && "id" !in geometries[|s.children|].attrs)
      ensures geometries == old(geometries) && effects == old(effects) && materials == old(materials)
      ensures cameras == old(cameras) && lights == old(lights) && meshes == old(meshes) && vtxs == old(vtxs)
    {
      var s := new Element("visual_scene", [], map["id" := SceneId(|scenes|), "name" := "untitled"]);
      scenes := scenes + [s];
      var ok := FillScene(s, geometries);
      r := if ok then Ok(()) else Err(TypeError);
    }
  }
}
