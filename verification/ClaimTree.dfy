/** JSON values, and reading and writing them at a path. */
module ClaimTree {
  import opened Text

  datatype Json =
    | Null
    | Bool(flag: bool)
    | Number(number: int)
    | Str(text: string)
    | Array(items: seq<Json>)
    | Object(fields: map<string, Json>)

  type Fields = map<string, Json>

  type Path = seq<string>

  function Lookup(j: Json, path: Path): Option<Json>
    decreases |path|
  {
    if path == [] then Some(j)
    else if j.Object? && path[0] in j.fields then Lookup(j.fields[path[0]], path[1..])
    else None
  }

  /** The object stored under `key`, or a new one where there is none. */
  function Child(m: Fields, key: string): Fields {
    if key in m && m[key].Object? then m[key].fields else map[]
  }

  /** `m` with `v` at `path`; anything on the way that is not an object gives way to one. */
  function Put(m: Fields, path: Path, v: Json): Fields
    requires path != []
    decreases |path|
  {
    if |path| == 1 then m[path[0] := v]
    else m[path[0] := Object(Put(Child(m, path[0]), path[1..], v))]
  }

  function NonEmpty(parts: seq<string>): Path {
    if parts == [] then []
    else (if parts[0] == "" then [] else [parts[0]]) + NonEmpty(parts[1..])
  }

  /** The path a dotted name stands for: empty segments do not count. */
  function Parts(name: string): Path {
    NonEmpty(Split(name, '.'))
  }

  function PutClaim(m: Fields, name: string, v: Json): Fields {
    if Parts(name) == [] then m else Put(m, Parts(name), v)
  }

  /** The maps above `m`, outermost first, closed again over `m`. */
  function Close(above: seq<Fields>, path: Path, m: Fields): Fields
    requires |above| <= |path|
    decreases |above|
  {
    if above == [] then m
    else
      var k := |above| - 1;
      Close(above[..k], path, above[k][path[k] := Object(m)])
  }

  lemma Descend(above: seq<Fields>, path: Path, current: Fields, value: Json)
    requires |above| < |path| - 1
    ensures Close(above + [current], path, Put(Child(current, path[|above|]), path[|above| + 1..], value))
         == Close(above, path, Put(current, path[|above|..], value))
  {
  }

  method CloseOver(above: seq<Fields>, path: Path, inner: Fields) returns (r: Fields)
    requires |above| <= |path|
    ensures r == Close(above, path, inner)
  {
    r := inner;
    assert above[..|above|] == above;
    for k := |above| downto 0
      invariant Close(above[..k], path, r) == Close(above, path, inner)
    {
      assert above[..k + 1][..k] == above[..k];
      r := above[k][path[k] := Object(r)];
    }
  }

  /** The walk of `insert_claim`: down to the innermost object, making objects on the way, and then
      closing the objects again over the stored value. */
  method PutAt(m: Fields, path: Path, value: Json) returns (r: Fields)
    requires path != []
    ensures r == Put(m, path, value)
  {
    var last := |path| - 1;
    var current := m;
    var above: seq<Fields> := [];
    for i := 0 to last
      invariant |above| == i
      invariant Close(above, path, Put(current, path[i..], value)) == Put(m, path, value)
    {
      Descend(above, path, current, value);
      var entry := if path[i] in current then current[path[i]] else Object(map[]);
      if !entry.Object? {
        entry := Object(map[]);
      }
      above := above + [current];
      current := entry.fields;
    }
    assert path[last..] == [path[last]];
    r := CloseOver(above, path, current[path[last] := value]);
  }

  class ClaimMap {
    var fields: Fields

    constructor ()
      ensures fields == map[]
    {
      fields := map[];
    }

    method InsertClaim(name: string, value: Json)
      modifies this
      ensures fields == PutClaim(old(fields), name, value)
    {
      var path := Parts(name);
      if path != [] {
        fields := PutAt(fields, path, value);
      }
    }
  }

  // ----- The laws -----

  /** Reading back what was written. */
  lemma {:induction false} GetPut(m: Fields, path: Path, v: Json)
    requires path != []
    ensures Lookup(Object(Put(m, path, v)), path) == Some(v)
    decreases |path|
  {
    if |path| > 1 {
      GetPut(Child(m, path[0]), path[1..], v);
    }
  }

  /** Writing what is already there. */
  lemma {:induction false} PutGet(m: Fields, path: Path, v: Json)
    requires path != [] && Lookup(Object(m), path) == Some(v)
    ensures Put(m, path, v) == m
    decreases |path|
  {
    if |path| > 1 {
      assert Lookup(m[path[0]], path[1..]) == Some(v);
      PutGet(Child(m, path[0]), path[1..], v);
    }
  }

  /** The last write wins. */
  lemma {:induction false} PutPut(m: Fields, path: Path, v: Json, w: Json)
    requires path != []
    ensures Put(Put(m, path, v), path, w) == Put(m, path, w)
    decreases |path|
  {
    if |path| > 1 {
      PutPut(Child(m, path[0]), path[1..], v, w);
    }
  }

  /** The paths part at some segment. */
  predicate Diverge(p: Path, q: Path)
    decreases |p|
  {
    p != [] && q != [] && (p[0] != q[0] || Diverge(p[1..], q[1..]))
  }

  lemma {:induction false} DivergeOrPrefix(p: Path, q: Path)
    ensures Diverge(p, q) <==> !(p <= q) && !(q <= p)
    decreases |p|
  {
    if p != [] && q != [] {
      DivergeOrPrefix(p[1..], q[1..]);
      assert p == [p[0]] + p[1..] && q == [q[0]] + q[1..];
    }
  }

  /** A write does not disturb what is read at a diverging path, even when it replaces a scalar on the way. */
  lemma {:induction false} PutElsewhere(m: Fields, p: Path, v: Json, q: Path)
    requires Diverge(p, q)
    ensures Lookup(Object(Put(m, p, v)), q) == Lookup(Object(m), q)
    decreases |p|
  {
    if p[0] == q[0] {
      PutElsewhere(Child(m, p[0]), p[1..], v, q[1..]);
    }
  }

  /** Below the written path, what is read is part of the written value. */
  lemma {:induction false} PutAbove(m: Fields, p: Path, v: Json, q: Path)
    requires p != [] && p <= q
    ensures Lookup(Object(Put(m, p, v)), q) == Lookup(v, q[|p|..])
    decreases |p|
  {
    if |p| == 1 {
      assert q[1..] == q[|p|..];
    } else {
      assert q[1..][|p| - 1..] == q[|p|..];
      PutAbove(Child(m, p[0]), p[1..], v, q[1..]);
    }
  }

  /** Above the written path there is an object, holding what it held and the write. */
  lemma {:induction false} PutBelow(m: Fields, p: Path, v: Json, q: Path)
    requires q != [] && q < p
    ensures var before := Lookup(Object(m), q);
            var held := if before.Some? && before.value.Object? then before.value.fields else map[];
            Lookup(Object(Put(m, p, v)), q) == Some(Object(Put(held, p[|q|..], v)))
    decreases |p|
  {
    if |q| > 1 {
      assert p[1..][|q| - 1..] == p[|q|..];
      PutBelow(Child(m, p[0]), p[1..], v, q[1..]);
    }
  }

  /** What `Put` stores under the first segment. */
  function Head(child: Fields, path: Path, v: Json): Json
    requires path != []
  {
    if |path| == 1 then v else Object(Put(child, path[1..], v))
  }

  lemma PutsApart(m: Fields, p: Path, v: Json, q: Path, w: Json)
    requires p != [] && q != [] && p[0] != q[0]
    ensures Put(Put(m, p, v), q, w)
         == m[p[0] := Head(Child(m, p[0]), p, v)][q[0] := Head(Child(m, q[0]), q, w)]
  {
  }

  lemma PutsTogether(m: Fields, p: Path, v: Json, q: Path, w: Json)
    requires |p| > 1 && |q| > 1 && p[0] == q[0]
    ensures Put(Put(m, p, v), q, w)
         == m[p[0] := Object(Put(Put(Child(m, p[0]), p[1..], v), q[1..], w))]
  {
  }

  lemma ApartCommute(m: Fields, p: Path, v: Json, q: Path, w: Json)
    requires p != [] && q != [] && p[0] != q[0]
    ensures Put(Put(m, p, v), q, w) == Put(Put(m, q, w), p, v)
  {
    PutsApart(m, p, v, q, w);
    PutsApart(m, q, w, p, v);
  }

  /** Writes at diverging paths can be made in either order. */
  lemma {:induction false} PutsCommute(m: Fields, p: Path, v: Json, q: Path, w: Json)
    requires Diverge(p, q)
    ensures Put(Put(m, p, v), q, w) == Put(Put(m, q, w), p, v)
    decreases |p|
  {
    if p[0] == q[0] {
      PutsTogether(m, p, v, q, w);
      PutsTogether(m, q, w, p, v);
      PutsCommute(Child(m, p[0]), p[1..], v, q[1..], w);
    } else {
      ApartCommute(m, p, v, q, w);
    }
  }

  lemma PutKeys(m: Fields, path: Path, v: Json)
    requires path != []
    ensures Put(m, path, v).Keys == m.Keys + {path[0]}
  {
  }
}
