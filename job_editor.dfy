/**
 * The job editor: it holds the job document and the input definitions it is
 * given, regroups the definitions on every change, and turns each per-input
 * edit into a new job document that it emits.
 */
module JobEditor {
  import opened Wrappers
  import opened JobGrouping

  datatype Resources = Resources(cpu: int, mem: int)

  /** A job document; the values of its inputs are of type V. */
  datatype Job<V> = Job(allocatedResources: Option<Resources>, inputs: Option<map<string, V>>)

  /** The job's input values; a missing `inputs` object spreads as the empty one. */
  function InputsOf<V>(job: Job<V>): (m: map<string, V>)
    ensures job.inputs.None? ==> m == map[]
    ensures job.inputs.Some? ==> m == job.inputs.value
  {
    job.inputs.GetOr(map[])
  }

  /**
   * `{...{}, ...job, inputs: {...job.inputs, [id]: value}}`: a new document
   * whose inputs hold `value` under `id`, every other input unchanged and
   * nothing added, and whose other top-level fields are those of `job`.
   */
  function WithInput<V>(job: Job<V>, id: string, value: V): (j: Job<V>)
    ensures j.inputs.Some?
    ensures id in j.inputs.value && j.inputs.value[id] == value
    ensures j.inputs.value.Keys == InputsOf(job).Keys + {id}
    ensures forall k :: k in InputsOf(job) && k != id ==> j.inputs.value[k] == InputsOf(job)[k]
    ensures j.allocatedResources == job.allocatedResources
  {
    job.(inputs := Some(InputsOf(job)[id := value]))
  }

  /** A later edit of the same input replaces an earlier one. */
  lemma WithInputOverwrites<V>(job: Job<V>, id: string, v1: V, v2: V)
    ensures WithInput(WithInput(job, id, v1), id, v2) == WithInput(job, id, v2)
  {
    var m := InputsOf(job);
    assert InputsOf(WithInput(job, id, v1)) == m[id := v1];
    assert m[id := v1][id := v2] == m[id := v2];
  }

  /** Edits of different inputs commute. */
  lemma WithInputCommutes<V>(job: Job<V>, a: string, va: V, b: string, vb: V)
    requires a != b
    ensures WithInput(WithInput(job, a, va), b, vb) == WithInput(WithInput(job, b, vb), a, va)
  {
    var m := InputsOf(job);
    assert m[a := va][b := vb] == m[b := vb][a := va];
  }

  /** Setting `x` to 5 in a job whose inputs are `{y: 1}` gives `{y: 1, x: 5}`. */
  lemma WithInputExample()
    ensures WithInput(Job(None, Some(map["y" := 1])), "x", 5) == Job(None, Some(map["y" := 1, "x" := 5]))
  {
  }

  class JobEditorComponent<V> {
    /** The job document (an input of the component, replaced on every edit). */
    var job: Job<V>
    /** The input definitions of the app. */
    var inputs: seq<InputDef>
    /** The definitions grouped and sorted for display. */
    var inputGroups: seq<Group>
    /** Every job document emitted through `update`, oldest first. */
    var updates: seq<Job<V>>

    constructor ()
      ensures job == Job(None, None) && inputs == [] && inputGroups == [] && updates == []
    {
      job := Job(None, None);
      inputs := [];
      inputGroups := [];
      updates := [];
    }

    /**
     * `jobValueUpdate`: replaces the job by one with `value` under `id`, and
     * emits exactly that new job once. The status message and the refresh
     * request go to collaborators outside the model.
     */
    method JobValueUpdate(id: string, value: V)
      modifies this
      ensures job == WithInput(old(job), id, value)
      ensures updates == old(updates) + [job]
      ensures inputs == old(inputs) && inputGroups == old(inputGroups)
    {
      job := WithInput(job, id, value);
      updates := updates + [job];
    }

    /**
     * New input values arrive (`job`, `inputs`), then `ngOnChanges` rebuilds
     * the groups from the definitions alone; the previous groups play no part.
     * The grouping is the corrected `InputGroups`: where a category names an
     * `Object.prototype` member the source's fold throws instead, and
     * `inputGroups` keeps its previous value (`ReduceAsWrittenIff`).
     */
    method OnChanges(newJob: Job<V>, newInputs: seq<InputDef>)
      modifies this
      ensures job == newJob && inputs == newInputs
      ensures inputGroups == InputGroups(newInputs)
      ensures updates == old(updates)
    {
      job, inputs := newJob, newInputs;
      inputGroups := InputGroups(inputs);
    }
  }
}
