/**
 * The job manager: a registry of jobs keyed by id, a FIFO queue of ids
 * waiting for the single worker, and a stop flag.
 *
 * The worker thread of the source is modelled as two explicit steps,
 * `StartNext` (pop an id and mark its job running) and `Finish` (write
 * the pipeline's outcome back), run by whoever drives the model. Locks,
 * the condition variable and the thread itself are not modelled; each
 * method is one critical section. Ids and creation times are inputs.
 */
module JobManager {
  import opened Wrappers
  import opened Text
  import opened JsonEscape

  // ------------------------------------------------------------ records

  /** The four states of a job. */
  datatype JobState = Queued | Running | Done | Error

  /** state_to_cstr: the lowercase name of a state. */
  function StateName(s: JobState): (name: string)
    ensures StateFromName(name) == Some(s)
  {
    match s
    case Queued => "queued"
    case Running => "running"
    case Done => "done"
    case Error => "error"
  }

  /** The inverse of StateName; None for any other text. */
  function StateFromName(name: string): Option<JobState> {
    if name == "queued" then Some(Queued)
    else if name == "running" then Some(Running)
    else if name == "done" then Some(Done)
    else if name == "error" then Some(Error)
    else None
  }

  /** One job. `createdAt` stands for the system_clock time point. */
  datatype JobInfo = JobInfo(
    id: string,
    imagePath: string,
    state: JobState,
    progress: int,
    result: string,
    error: string,
    createdAt: int)

  /** The progress a job shows in each state. */
  function ProgressOf(s: JobState): (p: int)
    ensures 0 <= p <= 100
    ensures p == 100 <==> s == Done || s == Error
  {
    match s
    case Queued => 0
    case Running => 5
    case Done => 100
    case Error => 100
  }

  /** Progress agrees with state (hence lies in 0..100). */
  predicate Consistent(j: JobInfo) {
    j.progress == ProgressOf(j.state)
  }

  /** `result` is filled only when done and `error` only when failed. */
  predicate Clean(j: JobInfo) {
    (j.result != "" ==> j.state == Done) && (j.error != "" ==> j.state == Error)
  }

  /** A default-constructed JobInfo. */
  function DefaultJob(): (j: JobInfo)
    ensures Consistent(j) && Clean(j)
    ensures j.state == Queued && j.id == "" && j.imagePath == ""
  {
    JobInfo("", "", Queued, 0, "", "", 0)
  }

  /** The record submit_image builds for a new job. */
  function NewJob(id: string, imagePath: string, now: int): (j: JobInfo)
    ensures Consistent(j) && Clean(j)
    ensures j.id == id && j.imagePath == imagePath && j.state == Queued && j.progress == 0
  {
    DefaultJob().(id := id, imagePath := imagePath, state := Queued, progress := 0, createdAt := now)
  }

  /** The allowed moves of one job's state: stay, or go one step forward. */
  predicate Advances(a: JobState, b: JobState) {
    a == b || (a == Queued && b == Running) || (a == Running && (b == Done || b == Error))
  }

  // ------------------------------------------------------- status json

  const NotFoundJson: string := "{\"ok\":false,\"error\":\"not found\"}"

  /** The key of a found job's last field: "error" for a failed job, else "result". */
  function OutcomeKey(job: JobInfo): string {
    if job.state == Error then "error" else "result"
  }

  /** The text of that field: the result when done, the error when failed, else empty. */
  function OutcomeText(job: JobInfo): string {
    if job.state == Done then job.result else if job.state == Error then job.error else ""
  }

  /** The object get_status_json writes for a found job, from its already formatted parts. */
  function StatusLayout(id: string, state: string, progress: string, key: string, text: string): string {
    "{\"ok\":true,\"id\":\"" + id + "\",\"state\":\"" + state + "\",\"progress\":" + progress
    + ",\"" + key + "\":\"" + text + "\"}"
  }

  /** get_status_json on a copy of the registry. */
  function StatusJson(jobs: map<string, JobInfo>, id: string): string {
    if id !in jobs then NotFoundJson
    else
      var job := jobs[id];
      StatusLayout(Escaped(job.id), StateName(job.state), Decimal(job.progress),
                   OutcomeKey(job), Escaped(OutcomeText(job)))
  }

  /** What a poller learns from a status answer. */
  datatype Status =
    | Missing
    | Found(id: string, state: JobState, progress: int, key: string, text: string)

  /** The status a poller should see for `id`. */
  function View(jobs: map<string, JobInfo>, id: string): Status {
    if id !in jobs then Missing
    else
      var j := jobs[id];
      Found(j.id, j.state, j.progress, OutcomeKey(j), OutcomeText(j))
  }

  function Skip(t: string, prefix: string): Option<string> {
    if StartsWith(t, prefix) then Some(t[|prefix|..]) else None
  }

  /** A reader of the status format, independent of how it is written. */
  function ReadStatus(t: string): Option<Status> {
    if t == NotFoundJson then Some(Missing)
    else
      var r := Skip(t, "{\"ok\":true,\"id\":\"");
      if r.None? then None else
      var a := ReadString(r.value);
      if a.None? then None else ReadState(a.value.0, a.value.1)
  }

  function ReadState(id: string, t: string): Option<Status> {
    var r := Skip(t, ",\"state\":\"");
    if r.None? then None else
    var b := ReadString(r.value);
    if b.None? || StateFromName(b.value.0).None? then None
    else ReadProgress(id, StateFromName(b.value.0).value, b.value.1)
  }

  function ReadProgress(id: string, s: JobState, t: string): Option<Status> {
    var r := Skip(t, ",\"progress\":");
    if r.None? then None else
    var c := ReadInt(r.value);
    if c.None? then None else ReadOutcome(id, s, c.value.0, c.value.1)
  }

  function ReadOutcome(id: string, s: JobState, p: int, t: string): Option<Status> {
    var r := Skip(t, ",\"");
    if r.None? then None else
    var k := ReadString(r.value);
    if k.None? || (k.value.0 != "result" && k.value.0 != "error") then None else
    var r' := Skip(k.value.1, ":\"");
    if r'.None? then None else
    var v := ReadString(r'.value);
    if v.None? || v.value.1 != "}" then None
    else Some(Found(id, s, p, k.value.0, v.value.0))
  }

  lemma SkipPrefix(p: string, rest: string)
    ensures Skip(p + rest, p) == Some(rest)
  {
    assert (p + rest)[..|p|] == p;
    assert (p + rest)[|p|..] == rest;
  }

  /** The state names and the two keys need no escaping. */
  lemma PlainName(s: JobState)
    ensures Escaped(StateName(s)) == StateName(s)
  {
    EscapedPlain(StateName(s));
  }

  lemma PlainKey(job: JobInfo)
    ensures Escaped(OutcomeKey(job)) == OutcomeKey(job)
  {
    EscapedPlain(OutcomeKey(job));
  }

  lemma ReadOutcomeOf(id: string, s: JobState, p: int, key: string, text: string)
    requires key == "result" || key == "error"
    requires Escaped(key) == key
    ensures ReadOutcome(id, s, p, ",\"" + (key + "\":\"" + Escaped(text) + "\"}"))
            == Some(Found(id, s, p, key, text))
  {
    var e := Escaped(text);
    var w := e + "\"" + "}";
    var u := ":\"" + w;
    var rest := key + "\":\"" + e + "\"}";
    assert rest == Escaped(key) + "\"" + u by {
      assert "\":\"" == "\"" + ":\"" && "\"}" == "\"" + "}";
    }
    SkipPrefix(",\"", rest);
    ReadEscaped(key, u);
    SkipPrefix(":\"", w);
    ReadEscaped(text, "}");
  }

  lemma ReadProgressOf(id: string, s: JobState, p: int, rest: string)
    requires StartsWith(rest, ",")
    ensures ReadProgress(id, s, ",\"progress\":" + (Decimal(p) + rest)) == ReadOutcome(id, s, p, rest)
  {
    SkipPrefix(",\"progress\":", Decimal(p) + rest);
    ReadDecimal(p, rest);
  }

  lemma ReadStateOf(id: string, s: JobState, rest: string)
    requires Escaped(StateName(s)) == StateName(s)
    ensures ReadState(id, ",\"state\":\"" + (StateName(s) + "\"" + rest))
            == ReadProgress(id, s, rest)
  {
    SkipPrefix(",\"state\":\"", StateName(s) + "\"" + rest);
    ReadEscaped(StateName(s), rest);
  }

  lemma LayoutShape(id: string, state: string, progress: string, key: string, text: string)
    ensures StatusLayout(id, state, progress, key, text)
            == "{\"ok\":true,\"id\":\"" + (id + "\"" + (",\"state\":\"" + (state + "\"" +
               (",\"progress\":" + (progress + (",\"" + (key + "\":\"" + text + "\"}")))))))
  {
  }

  lemma LayoutIsFound(id: string, state: string, progress: string, key: string, text: string)
    ensures StatusLayout(id, state, progress, key, text) != NotFoundJson
  {
    var t := StatusLayout(id, state, progress, key, text);
    assert t[6] == 't' && NotFoundJson[6] == 'f';
  }

  lemma ReadLayout(id: string, s: JobState, p: int, key: string, text: string)
    requires key == "result" || key == "error"
    requires Escaped(key) == key && Escaped(StateName(s)) == StateName(s)
    ensures ReadStatus(StatusLayout(Escaped(id), StateName(s), Decimal(p), key, Escaped(text)))
            == Some(Found(id, s, p, key, text))
  {
    var u3 := ",\"" + (key + "\":\"" + Escaped(text) + "\"}");
    var u2 := ",\"progress\":" + (Decimal(p) + u3);
    var u1 := ",\"state\":\"" + (StateName(s) + "\"" + u2);
    LayoutShape(Escaped(id), StateName(s), Decimal(p), key, Escaped(text));
    LayoutIsFound(Escaped(id), StateName(s), Decimal(p), key, Escaped(text));
    SkipPrefix("{\"ok\":true,\"id\":\"", Escaped(id) + "\"" + u1);
    ReadEscaped(id, u1);
    ReadStateOf(id, s, u2);
    assert StartsWith(u3, ",");
    ReadProgressOf(id, s, p, u3);
    ReadOutcomeOf(id, s, p, key, text);
  }

  /**
   * The status answer carries exactly what View says: reading it back
   * gives View(jobs, id), whether or not the id is known.
   */
  lemma StatusJsonReadsBack(jobs: map<string, JobInfo>, id: string)
    ensures ReadStatus(StatusJson(jobs, id)) == Some(View(jobs, id))
  {
    if id in jobs {
      var job := jobs[id];
      PlainName(job.state);
      PlainKey(job);
      ReadLayout(job.id, job.state, job.progress, OutcomeKey(job), OutcomeText(job));
    }
  }

  /** The answer is the fixed "not found" object exactly when the id is unknown. */
  lemma StatusNotFoundIff(jobs: map<string, JobInfo>, id: string)
    ensures StatusJson(jobs, id) == NotFoundJson <==> id !in jobs
  {
    StatusJsonReadsBack(jobs, id);
  }

  // ------------------------------------------------------------ manager

  /** What one attempt of the worker to take a job yields. */
  datatype Dispatch =
    | Stopped                                   // stop_ was set: the loop exits
    | Waiting                                   // queue empty: the worker blocks
    | Started(id: string, imagePath: string)    // the job handed to the pipeline

  class Manager {
    var jobs: map<string, JobInfo>
    var queue: seq<string>
    var stop: bool
    /** The id the worker holds between popping it and writing back. */
    var current: Option<string>

    /** What holds in every reachable state. */
    ghost predicate Valid()
      reads this
    {
      && (forall k :: k in jobs ==> jobs[k].id == k && Consistent(jobs[k]))
      && (forall i :: 0 <= i < |queue| ==> queue[i] in jobs)
      && (current.Some? ==> current.value in jobs)
    }

    /**
     * What also holds as long as every submitted id is fresh: each queued
     * job is in the queue once, the running job is the one the worker
     * holds, and result/error are filled only in their terminal states.
     */
    ghost predicate Orderly()
      reads this
    {
      && Valid()
      && NoDuplicates(queue)
      && (forall i :: 0 <= i < |queue| ==> jobs[queue[i]].state == Queued)
      && (forall k :: k in jobs && jobs[k].state == Queued ==> k in queue)
      && (forall k :: k in jobs && jobs[k].state == Running ==> current == Some(k))
      && (current.Some? ==> jobs[current.value].state == Running)
      && (forall k :: k in jobs ==> Clean(jobs[k]))
    }

    constructor ()
      ensures Orderly()
      ensures jobs == map[] && queue == [] && !stop && current == None
    {
      jobs := map[];
      queue := [];
      stop := false;
      current := None;
    }

    /** submit_image with the id new_id produced and the current time. */
    method SubmitImage(imagePath: string, id: string, now: int) returns (r: string)
      requires Valid()
      modifies this
      ensures Valid()
      ensures r == id
      ensures jobs == if id in old(jobs) then old(jobs) else old(jobs)[id := NewJob(id, imagePath, now)]
      ensures queue == old(queue) + [id]
      ensures stop == old(stop) && current == old(current)
      ensures old(Orderly()) && id !in old(jobs) ==> Orderly()
      ensures old(Orderly()) && id !in old(jobs) ==>
        forall k :: k in old(jobs) ==> k in jobs && Advances(old(jobs)[k].state, jobs[k].state)
    {
      var job := NewJob(id, imagePath, now);
      if id !in jobs {
        jobs := jobs[id := job];
      }
      queue := queue + [id];
      r := id;
    }

    /** get_status_json. */
    function GetStatusJson(id: string): (s: string)
      reads this
      ensures s == NotFoundJson <==> id !in jobs
    {
      StatusNotFoundIff(jobs, id);
      StatusJson(jobs, id)
    }

    /** The first half of one round of worker_loop. */
    method StartNext() returns (d: Dispatch)
      requires Valid() && current.None?
      modifies this
      ensures Valid()
      ensures old(stop) ==> d == Stopped
      ensures old(stop) || old(queue) == [] ==>
        jobs == old(jobs) && queue == old(queue) && stop == old(stop) && current == None
      ensures !old(stop) && old(queue) == [] ==> d == Waiting
      ensures !old(stop) && old(queue) != [] ==>
        var id := old(queue)[0];
        && d == Started(id, old(jobs)[id].imagePath)
        && queue == old(queue)[1..]
        && jobs == old(jobs)[id := old(jobs)[id].(state := Running, progress := 5)]
        && current == Some(id) && stop == old(stop)
      ensures old(Orderly()) ==> Orderly()
      ensures old(Orderly()) ==>
        forall k :: k in old(jobs) ==> k in jobs && Advances(old(jobs)[k].state, jobs[k].state)
    {
      if stop {
        return Stopped;
      }
      if queue == [] {
        return Waiting;
      }
      var id := queue[0];
      queue := queue[1..];
      // Every queued id is a key, so the `continue` for a missing record never runs.
      assert id in jobs;
      var job := jobs[id];
      jobs := jobs[id := job.(state := Running, progress := 5)];
      current := Some(id);
      d := Started(id, job.imagePath);
    }

    /**
     * The second half of worker_loop: write back what the pipeline
     * returned. `reported` is the pipeline's last progress value.
     */
    method Finish(result: string, err: string, reported: int)
      requires Valid() && current.Some?
      modifies this
      ensures Valid()
      ensures var id := old(current).value;
              var j := old(jobs)[id];
        jobs == old(jobs)[id :=
          if err != "" then j.(state := Error, error := err, progress := 100)
          else j.(state := Done, result := result, progress := 100)]
      ensures queue == old(queue) && stop == old(stop) && current == None
      ensures old(Orderly()) ==> Orderly()
      ensures old(Orderly()) ==>
        forall k :: k in old(jobs) ==> k in jobs && Advances(old(jobs)[k].state, jobs[k].state)
    {
      var id := current.value;
      // The record of the held id still exists: the second `continue` never runs.
      assert id in jobs;
      var job := jobs[id];
      // The clamped value is overwritten in both branches below.
      job := job.(progress := if reported < 0 then 0 else if reported > 100 then 100 else reported);
      if err != "" {
        job := job.(state := Error, error := err, progress := 100);
      } else {
        job := job.(state := Done, result := result, progress := 100);
      }
      jobs := jobs[id := job];
      current := None;
    }

    /** What the destructor does before joining the worker. */
    method RequestStop()
      requires Valid()
      modifies this
      ensures Valid()
      ensures stop && jobs == old(jobs) && queue == old(queue) && current == old(current)
      ensures old(Orderly()) ==> Orderly()
    {
      stop := true;
    }
  }

  /** A submitted job reads back as queued, and as done once the worker finishes it. */
  method ScenarioDone(path: string, id: string)
  {
    var m := new Manager();
    var r := m.SubmitImage(path, id, 0);
    StatusJsonReadsBack(m.jobs, id);
    assert ReadStatus(m.GetStatusJson(id)) == Some(Found(id, Queued, 0, "result", ""));
    var d := m.StartNext();
    assert d == Started(id, path);
    m.Finish("hello", "", 42);
    StatusJsonReadsBack(m.jobs, id);
    assert ReadStatus(m.GetStatusJson(id)) == Some(Found(id, Done, 100, "result", "hello"));
  }

  /** Jobs are served in submission order. */
  method ScenarioFifo(pathA: string, pathB: string, id1: string, id2: string)
    requires id1 != id2
  {
    var m := new Manager();
    var r := m.SubmitImage(pathA, id1, 0);
    r := m.SubmitImage(pathB, id2, 0);
    var d := m.StartNext();
    assert d == Started(id1, pathA);
    m.Finish("hello", "", 42);
    d := m.StartNext();
    assert d == Started(id2, pathB);
  }

  /** A failed job reads back as an error; a stop requested meanwhile ends the worker afterwards. */
  method ScenarioErrorStop(path: string, id: string)
  {
    var m := new Manager();
    var r := m.SubmitImage(path, id, 0);
    var d := m.StartNext();
    assert d == Started(id, path);
    m.RequestStop();
    m.Finish("", "ocr failed", 50);
    StatusJsonReadsBack(m.jobs, id);
    assert ReadStatus(m.GetStatusJson(id)) == Some(Found(id, Error, 100, "error", "ocr failed"));
    d := m.StartNext();
    assert d == Stopped;
  }
}
