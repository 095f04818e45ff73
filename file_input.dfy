/**
 * The file-input inspector: a form with the fields `path`, `size`,
 * `secondaryFiles` (a list of path strings) and `contents`, kept in step with
 * an inbound file reference, and emitting a file-reference-shaped update on
 * every accepted change.
 */
module FileInput {
  import opened Wrappers

  /** The `path` of a secondary file, which may be undefined. */
  type Path = Option<string>

  /**
   * A secondary file or directory: its `path`, and every other field of the
   * record (`class`, `size`, ...) as an opaque remainder.
   */
  datatype SecondaryFile = SecondaryFile(path: Path, rest: map<string, string>)

  /** A file reference, inbound (the component's `input`) or outbound (an update). */
  datatype FileRef = FileRef(
    path: Option<string>,
    size: Option<int>,
    contents: Option<string>,
    metadata: Option<map<string, string>>,
    secondaryFiles: Option<seq<SecondaryFile>>)

  /** `formGroup.getRawValue()`: the four form values. */
  datatype FormValue = FormValue(
    path: Option<string>,
    size: Option<int>,
    secondaryFiles: seq<Path>,
    contents: Option<string>)

  // ---------------------------------------------------------------------------
  // Normalising and reconstructing the secondary files.

  /** `files.map(v => v.path)`. */
  function Paths(files: seq<SecondaryFile>): (ps: seq<Path>)
    ensures |ps| == |files|
    ensures forall i :: 0 <= i < |files| ==> ps[i] == files[i].path
  {
    if files == [] then [] else [files[0].path] + Paths(files[1..])
  }

  /** `(secondaryFiles || []).map(v => v.path)`: an absent list gives no paths. */
  function ExtractPaths(files: Option<seq<SecondaryFile>>): (ps: seq<Path>)
    ensures files.None? ==> ps == []
    ensures files.Some? ==> |ps| == |files.value|
    ensures files.Some? ==> forall i :: 0 <= i < |ps| ==> ps[i] == files.value[i].path
  {
    match files
    case None => []
    case Some(fs) => Paths(fs)
  }

  /** `paths.map(path => ({path}))`: records with a `path` and no other field. */
  function ToSecondaryFiles(ps: seq<Path>): (files: seq<SecondaryFile>)
    ensures |files| == |ps|
    ensures forall i :: 0 <= i < |ps| ==> files[i] == SecondaryFile(ps[i], map[])
  {
    if ps == [] then [] else [SecondaryFile(ps[0], map[])] + ToSecondaryFiles(ps[1..])
  }

  /** Extracting the paths of rebuilt secondary files gives the paths back. */
  lemma ExtractAfterRebuild(ps: seq<Path>)
    ensures ExtractPaths(Some(ToSecondaryFiles(ps))) == ps
  {
  }

  /**
   * Rebuilding from extracted paths keeps each file's path, in order, and
   * drops every other field: the files come back only if they had none.
   */
  lemma RebuildAfterExtract(files: seq<SecondaryFile>)
    ensures var r := ToSecondaryFiles(ExtractPaths(Some(files)));
      && |r| == |files|
      && (forall i :: 0 <= i < |files| ==> r[i].path == files[i].path && r[i].rest == map[])
      && (r == files <==> forall i :: 0 <= i < |files| ==> files[i].rest == map[])
  {
    var r := ToSecondaryFiles(ExtractPaths(Some(files)));
    if forall i :: 0 <= i < |files| ==> files[i].rest == map[] {
      assert forall i :: 0 <= i < |files| ==> r[i] == files[i];
    }
  }

  /**
   * The record an accepted change emits: the raw form value with its
   * secondary files rebuilt as records. It carries exactly the four form
   * fields, so no `metadata` of the input reaches it.
   */
  function Snapshot(form: FormValue): (u: FileRef)
    ensures u.path == form.path && u.size == form.size && u.contents == form.contents
    ensures u.metadata.None?
    ensures u.secondaryFiles == Some(ToSecondaryFiles(form.secondaryFiles))
    ensures ExtractPaths(u.secondaryFiles) == form.secondaryFiles
  {
    ExtractAfterRebuild(form.secondaryFiles);
    FileRef(form.path, form.size, form.contents, None, Some(ToSecondaryFiles(form.secondaryFiles)))
  }

  /** Two paths `["a.txt", "b.txt"]` are emitted as `[{path: "a.txt"}, {path: "b.txt"}]`. */
  lemma SnapshotExample(path: Option<string>, size: Option<int>, contents: Option<string>)
    ensures Snapshot(FormValue(path, size, [Some("a.txt"), Some("b.txt")], contents)).secondaryFiles
         == Some([SecondaryFile(Some("a.txt"), map[]), SecondaryFile(Some("b.txt"), map[])])
  {
    var fs := ToSecondaryFiles([Some("a.txt"), Some("b.txt")]);
    assert fs[0] == SecondaryFile(Some("a.txt"), map[]) && fs[1] == SecondaryFile(Some("b.txt"), map[]);
    assert fs == [SecondaryFile(Some("a.txt"), map[]), SecondaryFile(Some("b.txt"), map[])];
  }

  // ---------------------------------------------------------------------------
  // The dedup gate on the secondary-files field.

  /** An array element as `Array.prototype.toString` writes it: undefined as "". */
  function Show(p: Path): (r: string)
    ensures p.None? ==> r == ""
    ensures p.Some? ==> r == p.value
  {
    p.GetOr("")
  }

  /** `paths.toString()`: the elements joined by commas. */
  function Join(ps: seq<Path>): string
  {
    if |ps| == 0 then ""
    else if |ps| == 1 then Show(ps[0])
    else Show(ps[0]) + "," + Join(ps[1..])
  }

  /** `distinctUntilChanged`: a value passes if nothing has passed yet or its string differs. */
  predicate Forwards(last: Option<seq<Path>>, v: seq<Path>)
    ensures Forwards(last, v) ==> last != Some(v)
    ensures !Forwards(last, v) ==> last.Some?
  {
    last.None? || Join(last.value) != Join(v)
  }

  /** The values a stream `vs` lets through, given the last value forwarded before it. */
  function Distinct(last: Option<seq<Path>>, vs: seq<seq<Path>>): (out: seq<seq<Path>>)
    ensures |out| <= |vs|
    ensures forall v :: v in out ==> v in vs
    ensures vs != [] && last.None? ==> out != [] && out[0] == vs[0]
    decreases |vs|
  {
    if vs == [] then []
    else if Forwards(last, vs[0]) then [vs[0]] + Distinct(Some(vs[0]), vs[1..])
    else Distinct(last, vs[1..])
  }

  /** The gate's remembered value after the stream `vs`. */
  function LastForwarded(last: Option<seq<Path>>, vs: seq<seq<Path>>): (r: Option<seq<Path>>)
    ensures Distinct(last, vs) == [] ==> r == last
    ensures Distinct(last, vs) != [] ==> r == Some(Distinct(last, vs)[|Distinct(last, vs)| - 1])
    decreases |vs|
  {
    if vs == [] then last
    else LastForwarded(if Forwards(last, vs[0]) then Some(vs[0]) else last, vs[1..])
  }

  /** One more value reaches the gate: it passes iff it differs from the last one forwarded. */
  lemma {:induction false} DistinctSnoc(last: Option<seq<Path>>, vs: seq<seq<Path>>, v: seq<Path>)
    ensures Distinct(last, vs + [v])
         == Distinct(last, vs) + (if Forwards(LastForwarded(last, vs), v) then [v] else [])
    ensures LastForwarded(last, vs + [v])
         == if Forwards(LastForwarded(last, vs), v) then Some(v) else LastForwarded(last, vs)
    decreases |vs|
  {
    if vs == [] {
      assert [v][1..] == [];
    } else {
      assert (vs + [v])[1..] == vs[1..] + [v];
      DistinctSnoc(if Forwards(last, vs[0]) then Some(vs[0]) else last, vs[1..], v);
    }
  }

  /**
   * The forwarded stream never holds two consecutive values with the same
   * string, nor starts with the string of the value forwarded before it.
   */
  lemma {:induction false} DistinctNoRepeats(last: Option<seq<Path>>, vs: seq<seq<Path>>)
    ensures var out := Distinct(last, vs);
      && (forall i :: 0 <= i < |out| - 1 ==> Join(out[i]) != Join(out[i + 1]))
      && (last.Some? && out != [] ==> Join(last.value) != Join(out[0]))
    decreases |vs|
  {
    if vs != [] {
      if Forwards(last, vs[0]) {
        DistinctNoRepeats(Some(vs[0]), vs[1..]);
      } else {
        DistinctNoRepeats(last, vs[1..]);
      }
    }
  }

  /** The same list fed twice in a row is forwarded at most once. */
  lemma RepeatForwardedOnce(last: Option<seq<Path>>, vs: seq<seq<Path>>, v: seq<Path>)
    ensures |Distinct(last, vs + [v, v])| <= |Distinct(last, vs)| + 1
  {
    DistinctSnoc(last, vs, v);
    assert vs + [v, v] == (vs + [v]) + [v];
    DistinctSnoc(last, vs + [v], v);
  }

  /** The string comparison conflates some lists of different contents. */
  lemma JoinConflates()
    ensures Join([Some("a"), Some("b")]) == Join([Some("a,b")])
    ensures Join([]) == Join([Some("")]) == Join([None])
  {
  }

  /** Index of the first comma of a string, if any. */
  function FirstComma(s: string): (k: Option<nat>)
    ensures k.Some? ==> k.value < |s| && s[k.value] == ','
    ensures k.Some? ==> ',' !in s[..k.value]
    ensures k.None? ==> ',' !in s
  {
    if s == [] then None
    else if s[0] == ',' then Some(0)
    else match FirstComma(s[1..])
      case None => None
      case Some(k) =>
        assert s[..k + 1] == [s[0]] + s[1..][..k];
        Some(k + 1)
  }

  lemma {:induction false} FirstCommaAfter(p: string, rest: string)
    requires ',' !in p
    ensures FirstComma(p + "," + rest) == Some(|p|)
  {
    if p != [] {
      assert (p + "," + rest)[1..] == p[1..] + "," + rest;
      FirstCommaAfter(p[1..], rest);
    }
  }

  lemma {:induction false} JoinShape(ps: seq<Path>)
    requires ps != []
    requires forall i :: 0 <= i < |ps| ==> ',' !in Show(ps[i])
    ensures |ps| == 1 ==> Join(ps) == Show(ps[0])
    ensures |ps| == 1 ==> FirstComma(Join(ps)).None?
    ensures |ps| > 1 ==> FirstComma(Join(ps)) == Some(|Show(ps[0])|)
    ensures |ps| > 1 ==> Join(ps) == Show(ps[0]) + "," + Join(ps[1..])
  {
    if |ps| > 1 {
      FirstCommaAfter(Show(ps[0]), Join(ps[1..]));
    }
  }

  /**
   * For non-empty lists of comma-free paths, equal strings mean equal
   * displayed paths: there the gate suppresses exactly the repeats (an
   * undefined path still reads as "").
   */
  lemma {:induction false} JoinInjective(a: seq<Path>, b: seq<Path>)
    requires a != [] && b != []
    requires forall i :: 0 <= i < |a| ==> ',' !in Show(a[i])
    requires forall i :: 0 <= i < |b| ==> ',' !in Show(b[i])
    requires Join(a) == Join(b)
    ensures |a| == |b|
    ensures forall i :: 0 <= i < |a| ==> Show(a[i]) == Show(b[i])
  {
    JoinShape(a);
    JoinShape(b);
    if |a| > 1 {
      var n := |Show(a[0])|;
      assert |b| > 1 && n == |Show(b[0])|;
      assert Show(a[0]) == Join(a)[..n] == Show(b[0]);
      assert Join(a[1..]) == Join(a)[n + 1..] == Join(b[1..]);
      JoinInjective(a[1..], b[1..]);
      forall i | 0 <= i < |a| ensures Show(a[i]) == Show(b[i]) {
        if i > 0 {
          assert a[1..][i - 1] == a[i] && b[1..][i - 1] == b[i];
        }
      }
    }
  }

  /**
   * When no path is undefined the comparison is exact: non-empty lists of
   * comma-free paths with equal strings are equal.
   */
  lemma JoinInjectiveDefined(a: seq<Path>, b: seq<Path>)
    requires a != [] && b != []
    requires forall i :: 0 <= i < |a| ==> a[i].Some? && ',' !in a[i].value
    requires forall i :: 0 <= i < |b| ==> b[i].Some? && ',' !in b[i].value
    requires Join(a) == Join(b)
    ensures a == b
  {
    JoinInjective(a, b);
    assert forall i :: 0 <= i < |a| ==> a[i] == Some(Show(a[i])) && b[i] == Some(Show(b[i]));
  }

  // ---------------------------------------------------------------------------
  // The component.

  class Inspector {
    /** The inbound file reference (`@Input() input`, initially `{}`). */
    var input: FileRef
    /** The paths extracted from the last inbound reference. */
    var secondaryFilePaths: seq<Path>
    /** The form's values; None until `ngOnInit` has built the form. */
    var form: Option<FormValue>
    /** The last secondary-files value the gate let through; None if none yet. */
    var lastForwarded: Option<seq<Path>>
    /** Every record emitted through `update`, oldest first. */
    var updates: seq<FileRef>

    /** Every value written to the secondary-files field since the form was built. */
    ghost var fed: seq<seq<Path>>
    /** The number of raw form changes since the form was built. */
    ghost var rawChanges: nat

    /**
     * The gate remembers the last value of the stream it let through, and
     * every forwarded value and every raw change emitted exactly one update.
     */
    ghost predicate Valid()
      reads this
    {
      && lastForwarded == LastForwarded(None, fed)
      && |updates| == |Distinct(None, fed)| + rawChanges
      && (form.None? ==> fed == [] && rawChanges == 0 && updates == [])
    }

    constructor ()
      ensures Valid()
      ensures input == FileRef(None, None, None, None, None)
      ensures secondaryFilePaths == [] && form.None? && lastForwarded.None? && updates == []
      ensures fed == [] && rawChanges == 0
    {
      input := FileRef(None, None, None, None, None);
      secondaryFilePaths := [];
      form := None;
      lastForwarded := None;
      updates := [];
      fed := [];
      rawChanges := 0;
    }

    /**
     * `ngOnInit`: builds the form from the current input and the extracted
     * paths. Nothing is emitted and the gate starts empty, so the first
     * secondary-files value after this always passes.
     */
    method OnInit()
      requires Valid() && form.None?
      modifies this
      ensures Valid()
      ensures form == Some(FormValue(input.path, input.size, secondaryFilePaths, input.contents))
      ensures lastForwarded.None? && updates == old(updates)
      ensures fed == old(fed) && rawChanges == old(rawChanges)
      ensures input == old(input) && secondaryFilePaths == old(secondaryFilePaths)
    {
      form := Some(FormValue(input.path, input.size, secondaryFilePaths, input.contents));
    }

    /**
     * A value is written into the secondary-files field. The field takes it;
     * if the gate lets it through, one update with the full current form is
     * emitted and the gate remembers it.
     */
    method SecondaryFilesChanged(v: seq<Path>)
      requires Valid() && form.Some?
      modifies this
      ensures Valid()
      ensures form == Some(old(form).value.(secondaryFiles := v))
      ensures lastForwarded == if Forwards(old(lastForwarded), v) then Some(v) else old(lastForwarded)
      ensures updates == old(updates) + if Forwards(old(lastForwarded), v) then [Snapshot(form.value)] else []
      ensures lastForwarded.Some? && Join(lastForwarded.value) == Join(v)
      ensures fed == old(fed) + [v] && rawChanges == old(rawChanges)
      ensures input == old(input) && secondaryFilePaths == old(secondaryFilePaths)
    {
      DistinctSnoc(None, fed, v);
      form := Some(form.value.(secondaryFiles := v));
      fed := fed + [v];
      if Forwards(lastForwarded, v) {
        lastForwarded := Some(v);
        updates := updates + [Snapshot(form.value)];
      }
    }

    /**
     * `ngOnChanges`: a new input arrives; its secondary files' paths are
     * extracted and, once the form exists, written into the secondary-files
     * field, which passes through the gate like any other write. The other
     * three fields keep their current values.
     */
    method OnChanges(current: FileRef)
      requires Valid()
      modifies this
      ensures Valid()
      ensures input == current
      ensures secondaryFilePaths == ExtractPaths(current.secondaryFiles)
      ensures old(form).None? ==>
        form.None? && lastForwarded == old(lastForwarded) && updates == old(updates) && fed == old(fed)
      ensures old(form).Some? ==>
        && form == Some(old(form).value.(secondaryFiles := secondaryFilePaths))
        && fed == old(fed) + [secondaryFilePaths]
        && lastForwarded == (if Forwards(old(lastForwarded), secondaryFilePaths) then Some(secondaryFilePaths) else old(lastForwarded))
        && updates == old(updates) + (if Forwards(old(lastForwarded), secondaryFilePaths) then [Snapshot(form.value)] else [])
      ensures rawChanges == old(rawChanges)
    {
      input := current;
      secondaryFilePaths := ExtractPaths(current.secondaryFiles);
      if form.Some? {
        SecondaryFilesChanged(secondaryFilePaths);
      }
    }

    /** The user edits the secondary-files list in the form. */
    method EditSecondaryFiles(v: seq<Path>)
      requires Valid()
      modifies this
      ensures Valid()
      ensures old(form).None? ==>
        form.None? && lastForwarded == old(lastForwarded) && updates == old(updates) && fed == old(fed)
      ensures old(form).Some? ==>
        && form == Some(old(form).value.(secondaryFiles := v))
        && fed == old(fed) + [v]
        && updates == old(updates) + (if Forwards(old(lastForwarded), v) then [Snapshot(form.value)] else [])
        && !Forwards(lastForwarded, v)
      ensures rawChanges == old(rawChanges)
      ensures input == old(input) && secondaryFilePaths == old(secondaryFilePaths)
    {
      if form.Some? {
        SecondaryFilesChanged(v);
      }
    }

    /**
     * The user types into the path, size or contents field. These fields are
     * not watched, so nothing is emitted until a raw change fires.
     */
    method EditFields(path: Option<string>, size: Option<int>, contents: Option<string>)
      requires Valid()
      modifies this
      ensures Valid()
      ensures old(form).None? ==> form.None?
      ensures old(form).Some? ==> form == Some(FormValue(path, size, old(form).value.secondaryFiles, contents))
      ensures lastForwarded == old(lastForwarded) && updates == old(updates)
      ensures fed == old(fed) && rawChanges == old(rawChanges)
      ensures input == old(input) && secondaryFilePaths == old(secondaryFilePaths)
    {
      if form.Some? {
        form := Some(FormValue(path, size, form.value.secondaryFiles, contents));
      }
    }

    /** A native `change` event on the form: never suppressed, one update with the full form. */
    method RawChange()
      requires Valid()
      modifies this
      ensures Valid()
      ensures old(form).None? ==> updates == old(updates)
      ensures old(form).Some? ==> updates == old(updates) + [Snapshot(old(form).value)]
      ensures form == old(form) && lastForwarded == old(lastForwarded)
      ensures fed == old(fed) && rawChanges == old(rawChanges) + (if old(form).Some? then 1 else 0)
      ensures input == old(input) && secondaryFilePaths == old(secondaryFilePaths)
    {
      if form.Some? {
        updates := updates + [Snapshot(form.value)];
        rawChanges := rawChanges + 1;
      }
    }
  }
}
