# File-input inspector and job editor: a verified model

This project models the two form components of a workflow editor's test-job area.

- **The file-input inspector** edits one file-typed value: `path`, `size`, `secondaryFiles` and `contents`.
  - It keeps a form in step with an inbound file reference.
  - It emits a file-reference-shaped update on each accepted change.
  - Its core has three parts:
    - path extraction for the secondary files;
    - the `{path}` reconstruction on the way out;
    - a dedup gate (rxjs `distinctUntilChanged`) on the secondary-files field, merged with the form's raw `change` events.
- **The job editor** holds a job document and the app's input definitions.
  - Every change regroups the definitions by category. The group names are sorted, and members keep source order.
  - Each per-input edit becomes a new job document whose `inputs` map has one key overwritten. That document is emitted.

Modules:

- `Wrappers` (`wrappers.dfy`): `Option`, standing for a property that may be `undefined`.
- `FileInput` (`file_input.dfy`):
  - the pure normalise/reconstruct functions and their round trip;
  - the gate as a function over a stream of values (`Distinct`);
  - the class `Inspector`, whose fields are the source component's state: the input, `secondaryFilePaths`, the form values (absent until `ngOnInit`), the gate's last value and the log of emitted updates.
  - Each Angular/rxjs path is an explicit method: `ngOnInit`, `ngOnChanges`, a write to the secondary-files control, typing into the other controls, and a raw `change` event.
  - Ghost fields record everything fed to the gate and the number of raw changes, and every method states how it extends them. `Valid()` ties the gate's state to `Distinct` and the number of updates to "forwarded values + raw changes".
- `StringOrder` (`string_order.dfy`): the order used for sorting group names, proved a strict total order.
- `JobGrouping` (`job_grouping.dfy`): the `reduce` / `sort` / `map` of the job editor's `ngOnChanges`, as functions. The reference definition is `Filter`, "the members of one category in list order", and the lemmas connect the fold to it.
- `JobEditor` (`job_editor.dfy`): the job document, the keyed update `WithInput`, and the class `JobEditorComponent` with `job`, `inputs`, `inputGroups` and the log of emitted jobs.

Behaviour of the code that the model keeps:

- **The inbound write goes through the gate.** The write of the extracted paths in `ngOnChanges` (`setValue`, `file-input-inspector.component.ts:102`) fires `valueChanges`, so it passes through the gate like any edit. It does not bypass the aggregator.
  - A refreshed input whose paths join to the same string as the last forwarded value therefore emits nothing.
  - The gate starts empty at `ngOnInit`. So the first secondary-files value to reach the gate after `ngOnInit` is always forwarded, whether it is an inbound snapshot or a user edit of the list. An inbound snapshot that arrives before any such edit is therefore forwarded even when its paths equal the form's initial ones.
- **The gate compares `Array.prototype.toString()`.**
  - Lists such as `["a", "b"]` and `["a,b"]`, or `[]`, `[""]` and `[undefined]`, count as equal (`JoinConflates`).
  - For non-empty lists of comma-free paths, equal strings mean equal lists, up to an undefined path reading as `""` (`JoinInjective`). With no undefined path the comparison is exact (`JoinInjectiveDefined`).

## Model

| member | source | states |
|---|---|---|
| `FileInput.Paths` | src/app/editor-common/inspector-forms/file-input-inspector.component.ts:98 | one path per secondary file, the i-th being the i-th file's `path` |
| `FileInput.ExtractPaths` | src/app/editor-common/inspector-forms/file-input-inspector.component.ts:98 | an absent `secondaryFiles` gives no paths; otherwise one path per secondary file, the i-th path being the `path` of the i-th file |
| `FileInput.ToSecondaryFiles` | src/app/editor-common/inspector-forms/file-input-inspector.component.ts:90 | same length as the path list, the i-th record being `{path: p_i}` with no other field |
| `FileInput.ExtractAfterRebuild` | src/app/editor-common/inspector-forms/file-input-inspector.component.ts:90-98 | extracting the paths of the rebuilt records gives back the original path list |
| `FileInput.RebuildAfterExtract` | src/app/editor-common/inspector-forms/file-input-inspector.component.ts:90-98 | rebuilding records from extracted paths keeps each file's path, in order, and drops every other field; the files come back unchanged iff they had no other field |
| `FileInput.Snapshot` | src/app/editor-common/inspector-forms/file-input-inspector.component.ts:87-90 | an emitted update copies `path`, `size` and `contents` from the form, carries no `metadata`, its secondary files are the form's paths rebuilt as `{path}` records, and extracting their paths gives the form's path list |
| `FileInput.SnapshotExample` | src/app/editor-common/inspector-forms/file-input-inspector.component.ts:90 | paths `["a.txt", "b.txt"]` are emitted as `[{path: "a.txt"}, {path: "b.txt"}]` |
| `FileInput.Show` | src/app/editor-common/inspector-forms/file-input-inspector.component.ts:81 | an element prints as its string, an undefined one as `""` |
| `FileInput.JoinShape` | src/app/editor-common/inspector-forms/file-input-inspector.component.ts:81 | the array string: one element prints as itself; more print the first element, a comma, then the rest; with comma-free elements the first comma ends the first element |
| `FileInput.Forwards` | src/app/editor-common/inspector-forms/file-input-inspector.component.ts:81 | the gate never forwards the value it remembers, and can suppress a value only once it remembers one |
| `FileInput.Distinct` | src/app/editor-common/inspector-forms/file-input-inspector.component.ts:81 | the gate forwards no more values than it receives, only values it received, and with nothing remembered always the first one |
| `FileInput.LastForwarded` | src/app/editor-common/inspector-forms/file-input-inspector.component.ts:81 | the gate remembers the last value it forwarded, or its earlier value if it forwarded none |
| `FileInput.DistinctSnoc` | src/app/editor-common/inspector-forms/file-input-inspector.component.ts:81 | a value reaching the gate is forwarded iff nothing was forwarded before or its comma-joined string differs from the last forwarded one; the gate then remembers it |
| `FileInput.DistinctNoRepeats` | src/app/editor-common/inspector-forms/file-input-inspector.component.ts:81 | no two consecutive forwarded values have the same string, and the first differs from the value remembered before |
| `FileInput.RepeatForwardedOnce` | src/app/editor-common/inspector-forms/file-input-inspector.component.ts:75-85 | the same path list fed twice in a row adds at most one forwarded value |
| `FileInput.JoinConflates` | src/app/editor-common/inspector-forms/file-input-inspector.component.ts:79-81 | the string comparison treats `["a","b"]` and `["a,b"]` as equal, and likewise `[]`, `[""]` and `[undefined]` |
| `FileInput.JoinInjective` | src/app/editor-common/inspector-forms/file-input-inspector.component.ts:79-81 | for non-empty lists of comma-free paths, equal strings mean equal lengths and equal displayed paths element by element (an undefined path displays as `""`) |
| `FileInput.JoinInjectiveDefined` | src/app/editor-common/inspector-forms/file-input-inspector.component.ts:79-81 | with no undefined path, non-empty comma-free lists with equal strings are equal |
| `FileInput.Inspector.constructor` | src/app/editor-common/inspector-forms/file-input-inspector.component.ts:49-64 | the input is `{}`, no paths, no form yet, an empty gate and no updates |
| `FileInput.Inspector.OnInit` | src/app/editor-common/inspector-forms/file-input-inspector.component.ts:66-72 | builds the form from the input's `path`, `size`, `contents` and the extracted paths; emits nothing; the gate starts empty |
| `FileInput.Inspector.SecondaryFilesChanged` | src/app/editor-common/inspector-forms/file-input-inspector.component.ts:75-93 | the field takes the value; an update with the full current form is emitted iff the gate forwards it; afterwards an equal-string repeat would be suppressed; the value is appended to the gate's input stream `fed` and the raw-change count is kept |
| `FileInput.Inspector.OnChanges` | src/app/editor-common/inspector-forms/file-input-inspector.component.ts:96-104 | records the input and its extracted paths; before the form exists nothing else changes; afterwards only the secondary-files field is overwritten, through the gate, and `path`, `size`, `contents` keep their form values; the extracted paths are appended to `fed` only once the form exists |
| `FileInput.Inspector.EditSecondaryFiles` | src/app/editor-common/inspector-forms/file-input-inspector.component.ts:76-81 | a user edit of the list goes through the same gate; a repeat right after it would not be forwarded; `fed` grows by the edit only once the form exists |
| `FileInput.Inspector.EditFields` | src/app/editor-common/inspector-forms/file-input-inspector.component.ts:67-72 | typing into `path`, `size` or `contents` changes only those form values and emits nothing |
| `FileInput.Inspector.RawChange` | src/app/editor-common/inspector-forms/file-input-inspector.component.ts:83-93 | a raw change is never suppressed: exactly one update, built from the full current form, counted in `rawChanges`; `fed` is unchanged |
| `StringOrder.LessIrreflexive` | src/app/editor-common/job-editor/job-editor.component.ts:89 | no name sorts before itself |
| `StringOrder.LessAsymmetric` | src/app/editor-common/job-editor/job-editor.component.ts:89 | two names never sort before each other |
| `StringOrder.LessTransitive` | src/app/editor-common/job-editor/job-editor.component.ts:89 | the sort order is transitive |
| `StringOrder.LessTotal` | src/app/editor-common/job-editor/job-editor.component.ts:89 | of two distinct names one sorts first |
| `JobGrouping.CategoryOf` | src/app/editor-common/job-editor/job-editor.component.ts:84 | the category is the looked-up value, or `"Uncategorized"` when absent |
| `JobGrouping.FilterSpec` | src/app/editor-common/job-editor/job-editor.component.ts:85 | the members of a category are a subsequence of the source list (relative order kept) and contain exactly the items of that category |
| `JobGrouping.StepSpec` | src/app/editor-common/job-editor/job-editor.component.ts:85 | a reduce step appends the item to its category's list (a new one if the key is new), adds the key at the end only if new, and leaves every other entry alone |
| `JobGrouping.Reduce` | src/app/editor-common/job-editor/job-editor.component.ts:83-86 | the folded object's key list and entries have the same keys, at most one key per item, and no empty entry |
| `JobGrouping.ReduceSpec` | src/app/editor-common/job-editor/job-editor.component.ts:83-86 | the folded object has exactly one key per category present, keys without repetition, and under each key that category's members in source order |
| `JobGrouping.SortNames` | src/app/editor-common/job-editor/job-editor.component.ts:89 | the sorted keys are ascending and a permutation of the keys; strictly ascending when the keys are distinct |
| `JobGrouping.GroupsOf` | src/app/editor-common/job-editor/job-editor.component.ts:89-92 | one group per sorted name, holding that name's entry of the folded object |
| `JobGrouping.InputGroups` | src/app/editor-common/job-editor/job-editor.component.ts:83-92 | group names are strictly ascending (so distinct) and exactly the categories present; each group holds exactly its category's members in source order; no group is empty |
| `JobGrouping.FlattenIsPermutation` | src/app/editor-common/job-editor/job-editor.component.ts:83-92 | groups that are the distinct categories' members, covering every item's category, concatenate to a permutation of the list |
| `JobGrouping.InputGroupsPermutation` | src/app/editor-common/job-editor/job-editor.component.ts:83-92 | the concatenation of all groups is a permutation of the input definitions |
| `JobGrouping.ExactlyOneGroup` | src/app/editor-common/job-editor/job-editor.component.ts:83-86 | every definition's category names a group, and the definition is in a group iff that group is named by its category |
| `JobGrouping.InputGroupsStable` | src/app/editor-common/job-editor/job-editor.component.ts:85 | within a group, members appear in their relative order from the source list and all share the group's category |
| `JobGrouping.StepAsWritten` | src/app/editor-common/job-editor/job-editor.component.ts:85 | as written, a step throws iff the category is not yet an own key and names an `Object.prototype` member; otherwise it is the intended step |
| `JobGrouping.ReduceAsWritten` | src/app/editor-common/job-editor/job-editor.component.ts:83-86 | as written, the reduce throws only if some category names an `Object.prototype` member |
| `JobGrouping.ReduceAsWrittenThrows` | src/app/editor-common/job-editor/job-editor.component.ts:85 | as written, a single definition with category `"toString"` makes the reduce throw |
| `JobGrouping.ReduceAsWrittenIff` | src/app/editor-common/job-editor/job-editor.component.ts:83-86 | as written, the reduce throws iff some category names an `Object.prototype` member, and otherwise gives the intended fold |
| `JobGrouping.UncategorizedExample` | src/app/editor-common/job-editor/job-editor.component.ts:84 | a definition without category metadata lands in the group `"Uncategorized"` |
| `JobGrouping.GroupOrderExample` | src/app/editor-common/job-editor/job-editor.component.ts:83-92 | categories B, A, A give groups A then B, with A's members in source order |
| `JobEditor.InputsOf` | src/app/editor-common/job-editor/job-editor.component.ts:75 | spreading the job's `inputs` gives its map, or the empty map when it is missing |
| `JobEditor.WithInput` | src/app/editor-common/job-editor/job-editor.component.ts:75 | the new inputs hold the value under the id, every other key keeps its value, no other key is added, a missing `inputs` counts as empty, and `allocatedResources` is unchanged |
| `JobEditor.WithInputOverwrites` | src/app/editor-common/job-editor/job-editor.component.ts:75 | a later edit of the same input replaces the earlier one |
| `JobEditor.WithInputCommutes` | src/app/editor-common/job-editor/job-editor.component.ts:75 | edits of different inputs commute |
| `JobEditor.WithInputExample` | src/app/editor-common/job-editor/job-editor.component.ts:75 | setting `x` to 5 on inputs `{y: 1}` gives `{y: 1, x: 5}` |
| `JobEditor.JobEditorComponent.constructor` | src/app/editor-common/job-editor/job-editor.component.ts:47-67 | the job is `{}`, no definitions, no groups and nothing emitted |
| `JobEditor.JobEditorComponent.JobValueUpdate` | src/app/editor-common/job-editor/job-editor.component.ts:72-79 | the job becomes the keyed update of the old job, and exactly that new job is emitted once; inputs and groups are untouched |
| `JobEditor.JobEditorComponent.OnChanges` | src/app/editor-common/job-editor/job-editor.component.ts:81-93 | the groups are rebuilt from the new definitions alone, independent of the previous groups; nothing is emitted. It uses the corrected fold: where a category names an `Object.prototype` member the source's `ngOnChanges` throws instead and `inputGroups` keeps its previous value (see "## Findings") |

## Left out

- Templates, labels and layout: presentation only.
- rxjs streams and Angular's `FormGroup`/`FormControl`: replaced by explicit event methods and an append-only log of emitted values.
- The status message (`statusBar.instant`), `cdr.markForCheck`, the `OnPush` policy and `inspector.hide` in `ngOnDestroy`: calls to collaborators whose code is not part of this model, with nothing to return.
- `onJobFormChange`: it has an empty body.
- `OH.getProperty`: its internals are not part of this model. The nested lookup of `customProps.sbg:category` is the field `InputDef.category`, and the default is applied by `CategoryOf`.
- `StringOrder.Less`: `localeCompare` is not modelled. Group names are sorted by character code, which is a strict total order. Locale rules (for instance `"a" < "B"`) are not captured.
  - `Object.keys` puts integer-like keys first. That is not modelled. It cannot affect the result, because the keys are then sorted by a total order.
- FileInput.SecondaryFile: the fields of a secondary file other than `path` are an opaque map of strings. Their JSON value types are not modelled. The output drops them all, as the source does.
- Null and undefined beyond the declared types are not modelled. In these cases the source throws a TypeError:
  - `input` bound to `undefined` or `null` (`currentValue.secondaryFiles`, file-input-inspector.component.ts:98);
  - a `null` element of `secondaryFiles` (`v.path`, same line);
  - `inputs` bound to `undefined` (`this.inputs.reduce`, job-editor.component.ts:83);
  - `job` bound to `null` (`this.job.inputs`, job-editor.component.ts:75).
- FileInput.FileRef: `size` is an optional integer. JavaScript numbers are floating point, and the text input delivers the size as a string after an edit. Neither is modelled.
- FileInput.Inspector: reference identity is not captured. The form control starts with the same array object as `secondaryFilePaths`. A change event from the secondary-files list that also bubbles as a raw `change` is not modelled; the model treats the two sources as separate events.
- FileInput.Inspector.OnInit: requires that the form does not exist yet, because Angular calls `ngOnInit` once. A second call in the source would build a second subscription.
- JobEditor.WithInput: only `allocatedResources` and `inputs` are modelled as top-level job fields. The source's spread also copies any other fields unchanged. Job values are a type parameter.
- JobGrouping.InputDef: carries only `id` and the category. Other fields of an input definition play no part in grouping.

## Findings

| source | as written | input that shows it | evidently intended | confidence | as-written member | corrected member |
|---|---|---|---|---|---|---|
| src/app/editor-common/job-editor/job-editor.component.ts:85 | `(acc[cat] \|\| [])` looks the category up on a plain object literal, so a name inherited from `Object.prototype` returns a function or object, and `.concat(item)` throws a TypeError | one input definition whose `customProps["sbg:category"]` is `"toString"` (likewise `"constructor"`, `"__proto__"`, `"valueOf"`, …) | every category string forms its own group | not executed | `JobGrouping.ReduceAsWritten` (counterexample `JobGrouping.ReduceAsWrittenThrows`, exact condition `JobGrouping.ReduceAsWrittenIff`) | `JobGrouping.Reduce` (proved by `JobGrouping.ReduceSpec`, used by `JobGrouping.InputGroups`) |
