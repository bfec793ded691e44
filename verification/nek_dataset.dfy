/**
 * The control logic of `nek_dataset`: the load check on the field file, the
 * pairing of field and reference elements into stores, the merge of their
 * per-element datasets, the time stamp and the optional drop of variables. Reading the files
 * and merging the datasets are done by libraries; their results are inputs.
 */
module NekDataset {
  import opened Wrappers
  import opened Lookups
  import opened NekStore

  /** A field file as `pm.readnek` returns it: its elements and its time stamp. */
  datatype FieldFile = FieldFile(elems: seq<Element>, time: real)

  /** What `pm.readnek` gives back: the file, or an integer status when it could not read it. */
  datatype ReadOutcome = Loaded(file: FieldFile) | Status(code: int)

  /**
   * Why `nek_dataset` gives no dataset: the field file did not load (the error
   * names its path); the reference did not load, which surfaces only as the
   * failed `.elem` access on an integer; the merge refused the element
   * datasets; or a variable to drop is not in the merged dataset.
   */
  datatype NekError = LoadFailed(path: string) | ReferenceNotLoaded | MergeFailed | MissingVariable(name: string)

  /** The variables of one dataset, by name. */
  type Variables = map<string, Variable>

  function Min(a: nat, b: nat): nat {
    if a <= b then a else b
  }

  /** `zip(elements, elements2)`: the i-th field element with the i-th reference element. */
  function Pair(elements: seq<Element>, elements2: seq<Element>): (stores: seq<Store>)
    ensures |stores| == Min(|elements|, |elements2|)
    ensures forall i :: 0 <= i < |stores| ==> stores[i] == Store(elements[i], elements2[i])
  {
    if |elements| == 0 || |elements2| == 0 then []
    else [Store(elements[0], elements2[0])] + Pair(elements[1..], elements2[1..])
  }

  /** Elements beyond the shorter list are ignored: only the common prefix is paired. */
  lemma {:induction false} PairIgnoresSurplus(elements: seq<Element>, elements2: seq<Element>)
    ensures var n := Min(|elements|, |elements2|);
            Pair(elements, elements2) == Pair(elements[..n], elements2[..n])
  {
    var n := Min(|elements|, |elements2|);
    var p, q := Pair(elements, elements2), Pair(elements[..n], elements2[..n]);
    assert |p| == |q|;
    forall i | 0 <= i < |p| ensures p[i] == q[i] {
      assert elements[..n][i] == elements[i] && elements2[..n][i] == elements2[i];
    }
  }

  /** What the stores need: the field element's velocity and the reference's positions. */
  predicate Complete(field: FieldFile, reference: FieldFile) {
    (forall e :: e in field.elems ==> |e.vel| >= 3) &&
    (forall e :: e in reference.elems ==> |e.pos| >= 3)
  }

  /** The dataset of each store, in element order. */
  function ElementDatasets(field: FieldFile, reference: FieldFile): (dsets: seq<Variables>)
    requires Complete(field, reference)
    ensures |dsets| == Min(|field.elems|, |reference.elems|)
  {
    var stores := Pair(field.elems, reference.elems);
    seq(|stores|, i requires 0 <= i < |stores| =>
      assert field.elems[i] in field.elems && reference.elems[i] in reference.elems;
      GetVariables(stores[i]))
  }

  /**
   * `ds.coords.update({"time": field.time})`: the field file's time stamp
   * becomes the scalar coordinate `time`, replacing any variable of that name.
   */
  function WithTime(ds: Variables, time: real): (r: Variables)
    ensures r.Keys == ds.Keys + {"time"}
    ensures r["time"] == Scalar(time)
    ensures forall k :: k in ds && k != "time" ==> r[k] == ds[k]
  {
    ds["time" := Scalar(time)]
  }

  /**
   * `ds.drop_vars(names)`: every named variable must exist; the result holds
   * the other variables, unchanged. The error names the first absent name,
   * where xarray lists them all.
   */
  function DropVars(ds: Variables, names: seq<string>): (r: Result<Variables, NekError>)
    ensures r.Success? <==> forall n :: n in names ==> n in ds
    ensures r.Failure? ==> r.error.MissingVariable? && r.error.name in names && r.error.name !in ds
    ensures r.Success? ==> forall k :: k in r.value <==> k in ds && k !in names
    ensures r.Success? ==> forall k :: k in r.value ==> r.value[k] == ds[k]
  {
    match FirstMissing(ds.Keys, names)
    case Some(missing) => Failure(MissingVariable(missing))
    case None => Success(map k | k in ds && k !in names :: ds[k])
  }

  /**
   * `nek_dataset(path, ref, drop_variables)`, given what `pm.readnek` returned
   * for the two paths and the merge `xr.combine_by_coords` performs. The time
   * stamp is attached before the drop, so `time` can be dropped like any
   * variable. An empty `dropVariables` stands for both `None` and an empty list.
   */
  function OpenNekDataset(path: string, field: ReadOutcome, reference: ReadOutcome, dropVariables: seq<string>,
                          combine: seq<Variables> -> Option<Variables>): (r: Result<Variables, NekError>)
    requires field.Loaded? && reference.Loaded? ==> Complete(field.file, reference.file)
    ensures field.Status? <==> r == Failure(LoadFailed(path))
    ensures r.Failure? && r.error.LoadFailed? ==> field.Status? && r.error.path == path
    ensures field.Loaded? && reference.Status? ==> r == Failure(ReferenceNotLoaded)
    ensures r.Success? ==>
              field.Loaded? && reference.Loaded? &&
              var merged := combine(ElementDatasets(field.file, reference.file));
              merged.Some? &&
              (forall k :: k in r.value <==> (k in merged.value || k == "time") && k !in dropVariables) &&
              (forall k :: k in r.value && k != "time" ==> r.value[k] == merged.value[k]) &&
              ("time" in r.value ==> r.value["time"] == Scalar(field.file.time))
    ensures field.Loaded? && reference.Loaded? ==>
              var merged := combine(ElementDatasets(field.file, reference.file));
              && (r == Failure(MergeFailed) <==> merged.None?)
              && (r.Success? <==> merged.Some? && forall n :: n in dropVariables ==> n in merged.value || n == "time")
              && (r.Failure? && merged.Some? ==>
                    && r.error.MissingVariable? && r.error.name in dropVariables
                    && r.error.name !in merged.value && r.error.name != "time")
  {
    if field.Status? then Failure(LoadFailed(path))
    else if reference.Status? then Failure(ReferenceNotLoaded)
    else
      match combine(ElementDatasets(field.file, reference.file))
      case None => Failure(MergeFailed)
      case Some(merged) =>
        var ds := WithTime(merged, field.file.time);
        if |dropVariables| > 0 then DropVars(ds, dropVariables) else Success(ds)
  }

  /** Without variables to drop, the result is the merged dataset with its time stamp. */
  lemma NoDropKeepsMerge(path: string, field: ReadOutcome, reference: ReadOutcome,
                         combine: seq<Variables> -> Option<Variables>)
    requires field.Loaded? && reference.Loaded? && Complete(field.file, reference.file)
    ensures var merged := combine(ElementDatasets(field.file, reference.file));
            OpenNekDataset(path, field, reference, [], combine) ==
              if merged.Some? then Success(WithTime(merged.value, field.file.time)) else Failure(MergeFailed)
  {
  }

  /**
   * The time stamp is a coordinate by the time variables are dropped: dropping
   * `time` succeeds and leaves the merged dataset without it.
   */
  lemma DropTime(path: string, field: ReadOutcome, reference: ReadOutcome,
                 combine: seq<Variables> -> Option<Variables>)
    requires field.Loaded? && reference.Loaded? && Complete(field.file, reference.file)
    requires combine(ElementDatasets(field.file, reference.file)).Some?
    ensures var merged := combine(ElementDatasets(field.file, reference.file)).value;
            OpenNekDataset(path, field, reference, ["time"], combine) ==
              Success(map k | k in merged && k != "time" :: merged[k])
  {
    var merged := combine(ElementDatasets(field.file, reference.file)).value;
    var r := OpenNekDataset(path, field, reference, ["time"], combine);
    var expected := map k | k in merged && k != "time" :: merged[k];
    assert r.value.Keys == expected.Keys;
    assert r.value == expected;
  }

  /**
   * Only the field file is checked: a failed reference never produces the
   * error that names a path, and a failed field file gives that error
   * whatever the reference is.
   */
  lemma OnlyFieldPathChecked(path: string, field: ReadOutcome, ref1: ReadOutcome, ref2: ReadOutcome,
                             dropVariables: seq<string>, combine: seq<Variables> -> Option<Variables>)
    requires field.Status?
    ensures OpenNekDataset(path, field, ref1, dropVariables, combine) ==
            OpenNekDataset(path, field, ref2, dropVariables, combine)
  {
  }

  /** The merge sees one dataset per paired element, built from that pair's store. */
  lemma MergeInputs(field: FieldFile, reference: FieldFile, i: nat)
    requires Complete(field, reference)
    requires i < |field.elems| && i < |reference.elems|
    ensures i < |ElementDatasets(field, reference)|
    ensures ElementDatasets(field, reference)[i] == GetVariables(Store(field.elems[i], reference.elems[i]))
  {
    assert field.elems[i] in field.elems && reference.elems[i] in reference.elems;
  }
}
