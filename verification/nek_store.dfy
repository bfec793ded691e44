/**
 * One Nek5000 element as an xarray store (`NekDataStore`): the recovery of
 * 1-D coordinates from meshgrid positions and the variables the store offers.
 */
module NekStore {
  import opened Unique
  import opened Rounding
  import opened ScalarNames

  /** A 3-D block of values indexed `[z][y][x]`, as one component of `elem.pos`. */
  type Mesh = seq<seq<seq<real>>>

  /** True when `(a, b, c)` indexes a value of `m`. */
  predicate In3(m: Mesh, a: int, b: int, c: int) {
    0 <= a < |m| && 0 <= b < |m[a]| && 0 <= c < |m[a][b]|
  }

  /** The values of a 2-D block, row after row. */
  function Flatten2(p: seq<seq<real>>): (s: seq<real>)
    ensures forall b, c :: 0 <= b < |p| && 0 <= c < |p[b]| ==> p[b][c] in s
    ensures forall v :: v in s ==> exists b, c :: 0 <= b < |p| && 0 <= c < |p[b]| && p[b][c] == v
  {
    if |p| == 0 then []
    else
      var rest := Flatten2(p[1..]);
      assert forall b, c :: 1 <= b < |p| && 0 <= c < |p[b]| ==> p[1..][b - 1][c] == p[b][c];
      p[0] + rest
  }

  /** The values of a mesh in the order `np.ravel` visits them. */
  function Flatten3(m: Mesh): (s: seq<real>)
    ensures forall a, b, c :: In3(m, a, b, c) ==> m[a][b][c] in s
    ensures forall v :: v in s ==> exists a, b, c :: In3(m, a, b, c) && m[a][b][c] == v
  {
    if |m| == 0 then []
    else
      var rest := Flatten3(m[1..]);
      assert forall a, b, c :: 1 <= a < |m| && In3(m, a, b, c) ==> In3(m[1..], a - 1, b, c);
      assert forall a, b, c :: In3(m[1..], a, b, c) ==> In3(m, a + 1, b, c) && m[1..][a][b][c] == m[a + 1][b][c];
      Flatten2(m[0]) + rest
  }

  /** `np.round(·, 8)` applied to every value. */
  function RoundAll(s: seq<real>): (r: seq<real>)
    ensures |r| == |s|
  {
    seq(|s|, i requires 0 <= i < |s| => Round8(s[i]))
  }

  /**
   * `meshgrid_to_dim`: `np.unique(np.round(mesh, 8))`. The result is strictly
   * ascending, holds the rounding of every position and nothing else.
   */
  function MeshgridToDim(mesh: Mesh): (dim: seq<real>)
    ensures StrictlyIncreasing(dim)
    ensures forall a, b, c :: In3(mesh, a, b, c) ==> Round8(mesh[a][b][c]) in dim
    ensures forall v :: v in dim ==> exists a, b, c :: In3(mesh, a, b, c) && Round8(mesh[a][b][c]) == v
  {
    var flat := Flatten3(mesh);
    var rounded := RoundAll(flat);
    var dim := SortedDistinct(rounded);
    forall v ensures v in rounded <==> v in dim {
      assert v in Elems(dim) <==> v in Elems(rounded);
    }
    forall a, b, c | In3(mesh, a, b, c) ensures Round8(mesh[a][b][c]) in rounded {
      var i :| 0 <= i < |flat| && flat[i] == mesh[a][b][c];
      assert rounded[i] == Round8(mesh[a][b][c]);
    }
    forall v | v in rounded ensures exists a, b, c :: In3(mesh, a, b, c) && Round8(mesh[a][b][c]) == v {
      var i :| 0 <= i < |rounded| && rounded[i] == v;
      assert flat[i] in flat;
    }
    dim
  }

  /** The values of `mesh` are exactly the elements of `v`. */
  ghost predicate Covers(mesh: Mesh, v: seq<real>) {
    (forall a, b, c :: In3(mesh, a, b, c) ==> mesh[a][b][c] in v) &&
    (forall k :: 0 <= k < |v| ==> v[k] in Flatten3(mesh))
  }

  /**
   * A mesh whose positions are exactly the values of a strictly increasing
   * vector already at 8 decimal places gives back that vector.
   */
  lemma MeshgridToDimOfCover(mesh: Mesh, v: seq<real>)
    requires StrictlyIncreasing(v) && forall k :: 0 <= k < |v| ==> OnGrid(v[k])
    requires Covers(mesh, v)
    ensures MeshgridToDim(mesh) == v
  {
    var dim := MeshgridToDim(mesh);
    forall x | x in dim ensures x in Elems(v) {
      var a, b, c :| In3(mesh, a, b, c) && Round8(mesh[a][b][c]) == x;
      Round8OfOnGrid(mesh[a][b][c]);
    }
    forall k | 0 <= k < |v| ensures v[k] in Elems(dim) {
      assert v[k] in Flatten3(mesh);
      var a, b, c :| In3(mesh, a, b, c) && mesh[a][b][c] == v[k];
      Round8OfOnGrid(v[k]);
    }
    assert Elems(dim) == Elems(v);
    StrictlyIncreasingUnique(dim, v);
  }

  /** The x component of `np.meshgrid`: `xs` repeated along z and y. */
  function MeshX(xs: seq<real>, nz: nat, ny: nat): (m: Mesh)
    ensures |m| == nz && forall a :: 0 <= a < nz ==> |m[a]| == ny
  {
    seq(nz, a => seq(ny, b => xs))
  }

  /** The y component: `ys[b]` fills row `b` of every z-slice. */
  function MeshY(ys: seq<real>, nz: nat, nx: nat): (m: Mesh)
    ensures |m| == nz && forall a :: 0 <= a < nz ==> |m[a]| == |ys|
  {
    seq(nz, a => seq(|ys|, b requires 0 <= b < |ys| => seq(nx, c => ys[b])))
  }

  /** The z component: `zs[a]` fills z-slice `a`. */
  function MeshZ(zs: seq<real>, ny: nat, nx: nat): (m: Mesh)
    ensures |m| == |zs|
  {
    seq(|zs|, a requires 0 <= a < |zs| => seq(ny, b => seq(nx, c => zs[a])))
  }

  /** The values a vector `meshgrid_to_dim` can give back: ascending, at 8 decimal places. */
  predicate Recoverable(v: seq<real>) {
    StrictlyIncreasing(v) && forall k :: 0 <= k < |v| ==> OnGrid(v[k])
  }

  lemma MeshXCovers(xs: seq<real>, nz: nat, ny: nat)
    requires nz >= 1 && ny >= 1
    ensures Covers(MeshX(xs, nz, ny), xs)
  {
    var m := MeshX(xs, nz, ny);
    forall a, b, c | In3(m, a, b, c) ensures m[a][b][c] in xs {
      assert m[a][b][c] == xs[c];
    }
    forall k | 0 <= k < |xs| ensures xs[k] in Flatten3(m) {
      assert In3(m, 0, 0, k) && m[0][0][k] == xs[k];
    }
  }

  lemma MeshYCovers(ys: seq<real>, nz: nat, nx: nat)
    requires nz >= 1 && nx >= 1
    ensures Covers(MeshY(ys, nz, nx), ys)
  {
    var m := MeshY(ys, nz, nx);
    forall a, b, c | In3(m, a, b, c) ensures m[a][b][c] in ys {
      assert m[a][b][c] == ys[b];
    }
    forall k | 0 <= k < |ys| ensures ys[k] in Flatten3(m) {
      assert In3(m, 0, k, 0) && m[0][k][0] == ys[k];
    }
  }

  lemma MeshZCovers(zs: seq<real>, ny: nat, nx: nat)
    requires ny >= 1 && nx >= 1
    ensures Covers(MeshZ(zs, ny, nx), zs)
  {
    var m := MeshZ(zs, ny, nx);
    forall a, b, c | In3(m, a, b, c) ensures m[a][b][c] in zs {
      assert m[a][b][c] == zs[a];
    }
    forall k | 0 <= k < |zs| ensures zs[k] in Flatten3(m) {
      assert In3(m, k, 0, 0) && m[k][0][0] == zs[k];
    }
  }

  /** "Reverse of np.meshgrid" along x: the x positions give back `xs`. */
  lemma MeshgridToDimX(xs: seq<real>, nz: nat, ny: nat)
    requires Recoverable(xs) && nz >= 1 && ny >= 1
    ensures MeshgridToDim(MeshX(xs, nz, ny)) == xs
  {
    MeshXCovers(xs, nz, ny);
    MeshgridToDimOfCover(MeshX(xs, nz, ny), xs);
  }

  /** Along y: the y positions give back `ys`. */
  lemma MeshgridToDimY(ys: seq<real>, nz: nat, nx: nat)
    requires Recoverable(ys) && nz >= 1 && nx >= 1
    ensures MeshgridToDim(MeshY(ys, nz, nx)) == ys
  {
    MeshYCovers(ys, nz, nx);
    MeshgridToDimOfCover(MeshY(ys, nz, nx), ys);
  }

  /** Along z: the z positions give back `zs`. */
  lemma MeshgridToDimZ(zs: seq<real>, ny: nat, nx: nat)
    requires Recoverable(zs) && ny >= 1 && nx >= 1
    ensures MeshgridToDim(MeshZ(zs, ny, nx)) == zs
  {
    MeshZCovers(zs, ny, nx);
    MeshgridToDimOfCover(MeshZ(zs, ny, nx), zs);
  }

  /** Every result of `meshgrid_to_dim` is itself recoverable. */
  lemma MeshgridToDimRecoverable(mesh: Mesh)
    ensures Recoverable(MeshgridToDim(mesh))
  {
    var dim := MeshgridToDim(mesh);
    forall k | 0 <= k < |dim| ensures OnGrid(dim[k]) {
      assert dim[k] in dim;
      var a, b, c :| In3(mesh, a, b, c) && Round8(mesh[a][b][c]) == dim[k];
      Round8Nearest(mesh[a][b][c]);
    }
  }

  /** Recovering the coordinates of a mesh built from recovered coordinates changes nothing. */
  lemma MeshgridToDimIdempotent(mesh: Mesh)
    ensures MeshgridToDim(MeshX(MeshgridToDim(mesh), 1, 1)) == MeshgridToDim(mesh)
  {
    MeshgridToDimRecoverable(mesh);
    MeshgridToDimX(MeshgridToDim(mesh), 1, 1);
  }

  /**
   * The arrays of one element as pymech reads them: `pos` and `vel` hold the
   * x, y and z components; `pres`, `temp` and `scal` hold one mesh per field
   * and are empty when the file stores no such field.
   */
  datatype Element = Element(pos: seq<Mesh>, vel: seq<Mesh>, pres: seq<Mesh>, temp: seq<Mesh>, scal: seq<Mesh>)

  /** A store pairs the element read from the field file with the one read from the reference file. */
  datatype Store = Store(elem: Element, elem2: Element)

  /** The dimension names of every field, outermost first. */
  const Axes: seq<string> := ["z", "y", "x"]

  /**
   * A variable of a dataset: a 1-D coordinate, a field laid out on `dims`, or
   * a scalar such as the time stamp of a field file.
   */
  datatype Variable = Coordinate(values: seq<real>) | Field(dims: seq<string>, data: Mesh) | Scalar(value: real)

  /** numpy's `.size` of an array made of these meshes: how many values it holds. */
  function Size(fields: seq<Mesh>): (n: nat)
    ensures n > 0 ==> |fields| > 0
    ensures n == 0 <==> forall i :: 0 <= i < |fields| ==> |Flatten3(fields[i])| == 0
  {
    if |fields| == 0 then 0
    else
      assert forall i :: 1 <= i < |fields| ==> fields[i] == fields[1..][i - 1];
      |Flatten3(fields[0])| + Size(fields[1..])
  }

  /** What `get_variables` needs of the arrays: three position and three velocity components. */
  predicate HasComponents(st: Store) {
    |st.elem2.pos| >= 3 && |st.elem.vel| >= 3
  }

  /** The keys every store offers. */
  const FixedKeys: set<string> := {"x", "y", "z", "xmesh", "ymesh", "zmesh", "ux", "uy", "uz"}

  /** No fixed key is longer than five characters. */
  lemma FixedKeysShort()
    ensures forall k :: k in FixedKeys ==> |k| <= 5
  {
  }

  /** Scalar names never collide with a fixed key or with the pressure or temperature names. */
  lemma ScalarNameFresh(n: nat)
    ensures ScalarName(n) !in FixedKeys && ScalarName(n) != "pressure" && ScalarName(n) != "temperature"
  {
    ScalarNameShape(n);
  }

  /** The scalar names of fields 1 to `n` are pairwise distinct. */
  lemma ScalarNamesDistinct(n: nat)
    ensures forall i :: 1 <= i < n ==> ScalarName(i) != ScalarName(n)
  {
    forall i | 1 <= i < n ensures ScalarName(i) != ScalarName(n) {
      if ScalarName(i) == ScalarName(n) {
        ScalarNameInjective(i, n);
      }
    }
  }

  /**
   * The scalar entries for fields 1 to `n`: one key per field, each holding
   * that field's mesh; no entry overwrites another.
   */
  function ScalarVariables(scal: seq<Mesh>, n: nat): (r: map<string, Variable>)
    requires n <= |scal|
    ensures forall k :: k in r ==> exists i :: 1 <= i <= n && k == ScalarName(i)
    ensures forall i :: 1 <= i <= n ==> ScalarName(i) in r && r[ScalarName(i)] == Field(Axes, scal[i - 1])
    ensures |r| == n
  {
    if n == 0 then map[]
    else
      var prev := ScalarVariables(scal, n - 1);
      AddScalarStep(prev, scal, n);
      prev[ScalarName(n) := Field(Axes, scal[n - 1])]
  }

  /** Adding field `n` to the entries of fields 1 to `n - 1` gives the entries of fields 1 to `n`. */
  lemma AddScalarStep(prev: map<string, Variable>, scal: seq<Mesh>, n: nat)
    requires 1 <= n <= |scal|
    requires forall k :: k in prev ==> exists i :: 1 <= i <= n - 1 && k == ScalarName(i)
    requires forall i :: 1 <= i <= n - 1 ==> ScalarName(i) in prev && prev[ScalarName(i)] == Field(Axes, scal[i - 1])
    requires |prev| == n - 1
    ensures var r := prev[ScalarName(n) := Field(Axes, scal[n - 1])];
            && (forall k :: k in r ==> exists i :: 1 <= i <= n && k == ScalarName(i))
            && (forall i :: 1 <= i <= n ==> ScalarName(i) in r && r[ScalarName(i)] == Field(Axes, scal[i - 1]))
            && |r| == n
  {
    var name := ScalarName(n);
    var r := prev[name := Field(Axes, scal[n - 1])];
    ScalarNamesDistinct(n);
    assert name !in prev;
    assert |r| == n;
    forall k | k in r ensures exists i :: 1 <= i <= n && k == ScalarName(i) {
      if k != name {
        assert k in prev;
      }
    }
    forall i | 1 <= i <= n ensures ScalarName(i) in r && r[ScalarName(i)] == Field(Axes, scal[i - 1]) {
      if i < n {
        assert ScalarName(i) != name;
      }
    }
  }

  /** The coordinate variable `meshgrid_to_dim` makes of one position component. */
  function AxisCoordinate(mesh: Mesh): Variable {
    Coordinate(MeshgridToDim(mesh))
  }

  /**
   * The entry of fixed key `k`: the axis names `x`, `y`, `z` (`ax[2]`, `ax[1]`,
   * `ax[0]` of `Axes`) hold the coordinates recovered from the reference positions.
   */
  function FixedValue(st: Store, k: string): Variable
    requires HasComponents(st)
  {
    var ax := Axes;
    var elem, elem2 := st.elem, st.elem2;
    if k == "x" then AxisCoordinate(elem2.pos[0])
    else if k == "y" then AxisCoordinate(elem2.pos[1])
    else if k == "z" then AxisCoordinate(elem2.pos[2])
    else if k == "xmesh" then Field(ax, elem2.pos[0])
    else if k == "ymesh" then Field(ax, elem2.pos[1])
    else if k == "zmesh" then Field(ax, elem2.pos[2])
    else if k == "ux" then Field(ax, elem.vel[0])
    else if k == "uy" then Field(ax, elem.vel[1])
    else Field(ax, elem.vel[2])
  }

  /** The nine entries every store offers. */
  function FixedVariables(st: Store): (m: map<string, Variable>)
    requires HasComponents(st)
    ensures m.Keys == FixedKeys
  {
    map k | k in FixedKeys :: FixedValue(st, k)
  }

  /** Adds `name`, holding the first of `fields`, when the array `fields` is not empty. */
  function AddIfPresent(m: map<string, Variable>, name: string, fields: seq<Mesh>): (r: map<string, Variable>)
    ensures name in r <==> name in m || Size(fields) > 0
    ensures Size(fields) > 0 ==> r[name] == Field(Axes, fields[0])
    ensures forall k :: k != name ==> (k in r <==> k in m)
    ensures forall k :: k in m && k != name ==> r[k] == m[k]
  {
    if Size(fields) > 0 then m[name := Field(Axes, fields[0])] else m
  }

  /** The fixed entries, then pressure and temperature when the field element has them. */
  function WithOptional(st: Store): (m: map<string, Variable>)
    requires HasComponents(st)
    ensures forall k :: k in m <==>
              k in FixedKeys || (k == "pressure" && Size(st.elem.pres) > 0) ||
              (k == "temperature" && Size(st.elem.temp) > 0)
    ensures "pressure" in m <==> Size(st.elem.pres) > 0
    ensures "temperature" in m <==> Size(st.elem.temp) > 0
  {
    FixedKeysShort();
    assert "pressure" != "temperature" by {
      assert "pressure"[0] != "temperature"[0];
    }
    assert |"pressure"| == 8 && |"temperature"| == 11;
    var withPressure := AddIfPresent(FixedVariables(st), "pressure", st.elem.pres);
    AddIfPresent(withPressure, "temperature", st.elem.temp)
  }

  /** The fixed entries keep their values; pressure and temperature hold the field element's first mesh. */
  lemma WithOptionalValues(st: Store)
    requires HasComponents(st)
    ensures forall k :: k in FixedKeys ==> WithOptional(st)[k] == FixedVariables(st)[k]
    ensures Size(st.elem.pres) > 0 ==> WithOptional(st)["pressure"] == Field(Axes, st.elem.pres[0])
    ensures Size(st.elem.temp) > 0 ==> WithOptional(st)["temperature"] == Field(Axes, st.elem.temp[0])
  {
    FixedKeysShort();
    assert "pressure" != "temperature" by {
      assert "pressure"[0] != "temperature"[0];
    }
    assert |"pressure"| == 8 && |"temperature"| == 11;
  }

  /**
   * Adds one entry per scalar field, named by its 1-based index, when the
   * scalar array is not empty; the entries already there are kept.
   */
  function AddScalars(m: map<string, Variable>, scal: seq<Mesh>): (r: map<string, Variable>)
    requires forall i :: 1 <= i <= |scal| ==> ScalarName(i) !in m
    ensures forall k :: k in r <==> k in m || (Size(scal) > 0 && exists i :: 1 <= i <= |scal| && k == ScalarName(i))
    ensures forall k :: k in m ==> r[k] == m[k]
    ensures Size(scal) > 0 ==> forall i :: 1 <= i <= |scal| ==> r[ScalarName(i)] == Field(Axes, scal[i - 1])
    ensures |r| == |m| + if Size(scal) > 0 then |scal| else 0
  {
    if Size(scal) > 0 then
      var scalars := ScalarVariables(scal, |scal|);
      assert m.Keys * scalars.Keys == {} by {
        forall k | k in scalars ensures k !in m {
          var i :| 1 <= i <= |scal| && k == ScalarName(i);
        }
      }
      MergeCount(m, scalars);
      m + scalars
    else m
  }

  /**
   * `get_variables`: the coordinates recovered from the reference element's
   * positions, the position meshes themselves, the velocity of the field
   * element, and its pressure, temperature and scalars when it has any.
   */
  function GetVariables(st: Store): (vars: map<string, Variable>)
    requires HasComponents(st)
    ensures forall k :: k in FixedKeys ==> k in vars
    ensures "pressure" in vars <==> Size(st.elem.pres) > 0
    ensures "temperature" in vars <==> Size(st.elem.temp) > 0
    ensures forall i :: 1 <= i <= |st.elem.scal| ==> (ScalarName(i) in vars <==> Size(st.elem.scal) > 0)
    ensures forall k :: k in vars ==>
              k in FixedKeys || k == "pressure" || k == "temperature" ||
              exists i :: 1 <= i <= |st.elem.scal| && k == ScalarName(i)
  {
    var m := WithOptional(st);
    assert forall i :: 1 <= i <= |st.elem.scal| ==>
             ScalarName(i) !in m && ScalarName(i) != "pressure" && ScalarName(i) != "temperature" by {
      forall i | 1 <= i <= |st.elem.scal|
        ensures ScalarName(i) !in m && ScalarName(i) != "pressure" && ScalarName(i) != "temperature"
      {
        ScalarNameFresh(i);
      }
    }
    AddScalarsOther(m, st.elem.scal, "pressure");
    AddScalarsOther(m, st.elem.scal, "temperature");
    AddScalars(m, st.elem.scal)
  }

  /** A key that names no scalar field is in the result exactly when it was there before. */
  lemma AddScalarsOther(m: map<string, Variable>, scal: seq<Mesh>, k: string)
    requires forall i :: 1 <= i <= |scal| ==> ScalarName(i) !in m && ScalarName(i) != k
    ensures k in AddScalars(m, scal) <==> k in m
  {
  }

  /** The fixed entries survive the optional ones. */
  lemma FixedEntry(st: Store, k: string)
    requires HasComponents(st) && k in FixedKeys
    ensures k in GetVariables(st) && GetVariables(st)[k] == FixedVariables(st)[k]
  {
    WithOptionalValues(st);
  }

  /** Pressure, temperature and scalars hold the field element's meshes when present. */
  lemma OptionalEntries(st: Store)
    requires HasComponents(st)
    ensures var vars := GetVariables(st);
            (Size(st.elem.pres) > 0 ==> vars["pressure"] == Field(Axes, st.elem.pres[0])) &&
            (Size(st.elem.temp) > 0 ==> vars["temperature"] == Field(Axes, st.elem.temp[0])) &&
            forall i :: 1 <= i <= |st.elem.scal| && Size(st.elem.scal) > 0 ==>
              vars[ScalarName(i)] == Field(Axes, st.elem.scal[i - 1])
  {
    WithOptionalValues(st);
  }

  /** The coordinates are recovered from the reference element's positions, `x` from `pos[0]`. */
  lemma CoordinateEntries(st: Store)
    requires HasComponents(st)
    ensures var vars := GetVariables(st);
            vars["x"] == AxisCoordinate(st.elem2.pos[0]) &&
            vars["y"] == AxisCoordinate(st.elem2.pos[1]) &&
            vars["z"] == AxisCoordinate(st.elem2.pos[2])
  {
    FixedEntry(st, "x");
    FixedEntry(st, "y");
    FixedEntry(st, "z");
    assert "z" != "x" && "z" != "y" && "y" != "x" by {
      assert "z"[0] == 'z' && "y"[0] == 'y' && "x"[0] == 'x';
    }
  }

  /** The position meshes are the reference element's, unrounded. */
  lemma MeshEntries(st: Store)
    requires HasComponents(st)
    ensures var vars := GetVariables(st);
            vars["xmesh"] == Field(Axes, st.elem2.pos[0]) &&
            vars["ymesh"] == Field(Axes, st.elem2.pos[1]) &&
            vars["zmesh"] == Field(Axes, st.elem2.pos[2])
  {
    FixedEntry(st, "xmesh");
    FixedEntry(st, "ymesh");
    FixedEntry(st, "zmesh");
    assert "zmesh" != "xmesh" && "zmesh" != "ymesh" && "ymesh" != "xmesh" by {
      assert "zmesh"[0] == 'z' && "ymesh"[0] == 'y' && "xmesh"[0] == 'x';
    }
    assert |"xmesh"| == 5 && |"x"| == 1;
  }

  /** The velocity components are the field element's. */
  lemma VelocityEntries(st: Store)
    requires HasComponents(st)
    ensures var vars := GetVariables(st);
            vars["ux"] == Field(Axes, st.elem.vel[0]) &&
            vars["uy"] == Field(Axes, st.elem.vel[1]) &&
            vars["uz"] == Field(Axes, st.elem.vel[2])
  {
    FixedEntry(st, "ux");
    FixedEntry(st, "uy");
    FixedEntry(st, "uz");
    assert |"ux"| == 2 && "ux"[0] == 'u' && "ux"[1] == 'x' && "uy"[1] == 'y';
  }

  /**
   * The number of variables: nine fixed ones, one each for pressure and
   * temperature when present, and one per scalar field when there are any.
   */
  lemma GetVariablesCount(st: Store)
    requires HasComponents(st)
    ensures |GetVariables(st)| ==
              9 + (if Size(st.elem.pres) > 0 then 1 else 0) + (if Size(st.elem.temp) > 0 then 1 else 0) +
              (if Size(st.elem.scal) > 0 then |st.elem.scal| else 0)
  {
    var fixed := FixedVariables(st);
    FixedKeysShort();
    FixedKeysCount();
    assert |"pressure"| == 8 && |"temperature"| == 11;
    assert "pressure" !in fixed && "temperature" !in fixed;
    var withPressure := AddIfPresent(fixed, "pressure", st.elem.pres);
    assert |withPressure| == 9 + (if Size(st.elem.pres) > 0 then 1 else 0);
    assert "temperature" !in withPressure;
  }

  /** Merging maps with disjoint keys adds their sizes. */
  lemma MergeCount<K, V>(a: map<K, V>, b: map<K, V>)
    requires a.Keys * b.Keys == {}
    ensures |a + b| == |a| + |b|
  {
    assert (a + b).Keys == a.Keys + b.Keys;
  }

  lemma FixedKeysCount()
    ensures |FixedKeys| == 9
  {
  }

  /**
   * The reference element only supplies coordinates and meshes: pairing the
   * same field element with another reference gives the same keys and the same
   * velocity, pressure, temperature and scalar entries.
   */
  lemma FieldsFromPrimary(elem: Element, ref1: Element, ref2: Element)
    requires HasComponents(Store(elem, ref1)) && HasComponents(Store(elem, ref2))
    ensures GetVariables(Store(elem, ref1)).Keys == GetVariables(Store(elem, ref2)).Keys
    ensures var v1, v2 := GetVariables(Store(elem, ref1)), GetVariables(Store(elem, ref2));
            v1["ux"] == v2["ux"] && v1["uy"] == v2["uy"] && v1["uz"] == v2["uz"] &&
            ("pressure" in v1 ==> v1["pressure"] == v2["pressure"]) &&
            ("temperature" in v1 ==> v1["temperature"] == v2["temperature"]) &&
            forall i :: 1 <= i <= |elem.scal| && ScalarName(i) in v1 ==> v1[ScalarName(i)] == v2[ScalarName(i)]
  {
    KeysFromPrimary(elem, ref1, ref2);
    VelocityEntries(Store(elem, ref1));
    VelocityEntries(Store(elem, ref2));
    OptionalEntries(Store(elem, ref1));
    OptionalEntries(Store(elem, ref2));
  }

  lemma KeysFromPrimary(elem: Element, ref1: Element, ref2: Element)
    requires HasComponents(Store(elem, ref1)) && HasComponents(Store(elem, ref2))
    ensures GetVariables(Store(elem, ref1)).Keys == GetVariables(Store(elem, ref2)).Keys
  {
    SameKeys(GetVariables(Store(elem, ref1)), GetVariables(Store(elem, ref2)), elem);
  }

  /** The keys `get_variables` offers, as its contract describes them for field element `elem`. */
  ghost predicate KeyShape(vars: map<string, Variable>, elem: Element) {
    (forall k :: k in FixedKeys ==> k in vars) &&
    ("pressure" in vars <==> Size(elem.pres) > 0) &&
    ("temperature" in vars <==> Size(elem.temp) > 0) &&
    (forall i :: 1 <= i <= |elem.scal| ==> (ScalarName(i) in vars <==> Size(elem.scal) > 0)) &&
    forall k :: k in vars ==>
      k in FixedKeys || k == "pressure" || k == "temperature" ||
      exists i :: 1 <= i <= |elem.scal| && k == ScalarName(i)
  }

  /** Two maps with the key shape of the same field element have the same keys. */
  lemma SameKeys(v1: map<string, Variable>, v2: map<string, Variable>, elem: Element)
    requires KeyShape(v1, elem) && KeyShape(v2, elem)
    ensures v1.Keys == v2.Keys
  {
    forall k | k in v1 ensures k in v2 {
      if k !in FixedKeys && k != "pressure" && k != "temperature" {
        var i :| 1 <= i <= |elem.scal| && k == ScalarName(i);
      }
    }
    forall k | k in v2 ensures k in v1 {
      if k !in FixedKeys && k != "pressure" && k != "temperature" {
        var i :| 1 <= i <= |elem.scal| && k == ScalarName(i);
      }
    }
  }

  /**
   * For a cartesian box element whose reference positions are the meshgrid of
   * recoverable vectors, the coordinates are exactly those vectors.
   */
  lemma CoordinatesOfBox(st: Store, xs: seq<real>, ys: seq<real>, zs: seq<real>)
    requires |st.elem.vel| >= 3
    requires st.elem2.pos == [MeshX(xs, |zs|, |ys|), MeshY(ys, |zs|, |xs|), MeshZ(zs, |ys|, |xs|)]
    requires Recoverable(xs) && Recoverable(ys) && Recoverable(zs)
    requires |xs| >= 1 && |ys| >= 1 && |zs| >= 1
    ensures var vars := GetVariables(st);
            vars["x"] == Coordinate(xs) && vars["y"] == Coordinate(ys) && vars["z"] == Coordinate(zs)
  {
    CoordinateEntries(st);
    MeshgridToDimX(xs, |zs|, |ys|);
    MeshgridToDimY(ys, |zs|, |xs|);
    MeshgridToDimZ(zs, |ys|, |xs|);
  }
}
