/**
 * Reading `scontrol show job`: the listing is cut into blank-line separated blocks, and each
 * block that names a `JobId=` gives one job with its node list, state, user and requested
 * TRES.
 */
module Jobs {
  import opened Wrappers
  import opened PyStr
  import opened Tres

  /** One job of the table. */
  datatype Job = Job(nodes: seq<string>, state: string, user: string, tres: Tres)

  /** The table keyed by job id; the reporter only looks jobs up in it, so the order of its
      keys plays no part. */
  type JobTable = map<string, Job>

  /** The list used in place of a TRES list that contains `null`: `cpu=0,mem=0G,gres/gpu=0`. */
  const NullTres: string := Item(CpuKey, "0") + "," + Item(MemKey, "0G") + "," + Item(GpuKey, "0")

  /** The block, stripped, names a job. */
  predicate Names(job: string) {
    Contains(job, "JobId=")
  }

  /** The TRES list a job requests mentions `null`. */
  predicate NullTresText(job: string) {
    Contains(Field(job, "TRES="), "null")
  }

  /** Every field the job's block is split on is there, and its TRES list holds `key=value`
      items. */
  predicate HasFields(job: string) {
    Contains(job, " NodeList=") && Contains(job, "JobState=") && Contains(job, "UserId=")
    && Contains(job, "TRES=") && (NullTresText(job) || WellFormed(Field(job, "TRES=")))
  }

  /** Reading the block does not raise. */
  predicate Readable(block: string) {
    Names(Strip(block)) ==> HasFields(Strip(block))
  }

  /** The job id of a block. */
  function JobId(job: string): string {
    Field(job, "JobId=")
  }

  /** The job a block describes; a `null` TRES list is replaced by `NullTres`, which reads as
      zero of everything (`NullTresIsZero`). */
  function JobOf(job: string): Job {
    Job(Split(Strip(Field(job, " NodeList=")), ","),
        Field(job, "JobState="),
        Before(Field(job, "UserId="), "("),
        if NullTresText(job) then Zero else TresOf(Field(job, "TRES=")))
  }

  /** What one block contributes: the job it names, under its id, or nothing. */
  datatype Entry = Entry(id: string, job: Job)

  function EntryOf(block: string): Option<Entry> {
    var job := Strip(block);
    if Names(job) then Some(Entry(JobId(job), JobOf(job))) else None
  }

  /** The entries of the blocks, in order. */
  function Entries(blocks: seq<string>): (es: seq<Option<Entry>>)
    ensures |es| == |blocks|
  {
    if blocks == [] then [] else Entries(blocks[..|blocks| - 1]) + [EntryOf(blocks[|blocks| - 1])]
  }

  /** The dictionary built from the entries, a later entry for an id replacing an earlier one. */
  function Collect(es: seq<Option<Entry>>): JobTable {
    if es == [] then map[]
    else
      var t := Collect(es[..|es| - 1]);
      match es[|es| - 1]
      case None => t
      case Some(e) => t[e.id := e.job]
  }

  /** `get_slurm_jobs` as a value: the table after every block. */
  function Table(blocks: seq<string>): JobTable {
    Collect(Entries(blocks))
  }

  /** `get_slurm_jobs` over the text `scontrol show job` prints. */
  method ParseJobs(stdout: string) returns (table: JobTable)
    requires forall b :: b in Split(stdout, "\n\n") ==> Readable(b)
    ensures table == Table(Split(stdout, "\n\n"))
  {
    table := ReadBlocks(Split(stdout, "\n\n"));
  }

  /** The `for job in job_str` loop. */
  method ReadBlocks(blocks: seq<string>) returns (table: JobTable)
    requires forall b :: b in blocks ==> Readable(b)
    ensures table == Table(blocks)
  {
    table := map[];
    var i := 0;
    while i < |blocks|
      invariant 0 <= i <= |blocks|
      invariant table == Collect(Entries(blocks[..i]))
    {
      assert blocks[i] in blocks;
      var e := ReadBlock(blocks[i]);
      TableStep(blocks, i);
      if e.Some? {
        table := table[e.value.id := e.value.job];
      }
      i := i + 1;
    }
    assert blocks[..i] == blocks;
  }

  /** One turn of the loop: strip the block, skip it unless it names a job, else read the job. */
  method ReadBlock(block: string) returns (e: Option<Entry>)
    requires Readable(block)
    ensures e == EntryOf(block)
  {
    var job := Strip(block);
    if |Split(job, "JobId=")| == 1 {
      e := None;
    } else {
      var id, entry := ReadJob(job);
      e := Some(Entry(id, entry));
    }
  }

  /** The body of the loop for a block that names a job. */
  method ReadJob(job: string) returns (id: string, entry: Job)
    requires Names(job) && HasFields(job)
    ensures id == JobId(job) && entry == JobOf(job)
  {
    id := Field(job, "JobId=");
    var nodes := Split(Strip(Field(job, " NodeList=")), ",");
    var state := Field(job, "JobState=");
    var user := Before(Field(job, "UserId="), "(");
    var tresStr := Field(job, "TRES=");
    if Contains(tresStr, "null") {
      tresStr := NullTres;
    }
    NullTresIsZero();
    var tres := ParseTres(tresStr);
    entry := Job(nodes, state, user, tres);
  }

  /** Reading block `i` extends the table of the blocks before it by that block's entry. */
  lemma TableStep(blocks: seq<string>, i: nat)
    requires i < |blocks|
    ensures Collect(Entries(blocks[..i + 1])) ==
      if EntryOf(blocks[i]).Some? then Collect(Entries(blocks[..i]))[EntryOf(blocks[i]).value.id := EntryOf(blocks[i]).value.job]
      else Collect(Entries(blocks[..i]))
  {
    EntriesSnoc(blocks, i);
    CollectSnoc(Entries(blocks[..i]), EntryOf(blocks[i]));
  }

  lemma EntriesSnoc(blocks: seq<string>, i: nat)
    requires i < |blocks|
    ensures Entries(blocks[..i + 1]) == Entries(blocks[..i]) + [EntryOf(blocks[i])]
  {
    var b := blocks[..i + 1];
    assert b[..|b| - 1] == blocks[..i] && b[|b| - 1] == blocks[i];
  }

  lemma CollectSnoc(es: seq<Option<Entry>>, e: Option<Entry>)
    ensures Collect(es + [e]) == if e.Some? then Collect(es)[e.value.id := e.value.job] else Collect(es)
  {
    var all := es + [e];
    assert all[..|all| - 1] == es && all[|all| - 1] == e;
  }

  /** Entry `j` of the blocks is that of block `j`. */
  lemma {:induction false} EntriesAt(blocks: seq<string>, j: nat)
    requires j < |blocks|
    ensures Entries(blocks)[j] == EntryOf(blocks[j])
  {
    var init, last := blocks[..|blocks| - 1], blocks[|blocks| - 1];
    var es := Entries(init) + [EntryOf(last)];
    assert Entries(blocks) == es;
    if j < |init| {
      EntriesAt(init, j);
      assert init[j] == blocks[j];
      assert es[j] == Entries(init)[j];
    } else {
      assert es[j] == EntryOf(last);
    }
  }

  /** The collected table holds exactly the ids of the entries. */
  lemma {:induction false} CollectKeys(es: seq<Option<Entry>>)
    ensures forall id :: id in Collect(es) <==> exists j :: 0 <= j < |es| && es[j].Some? && es[j].value.id == id
  {
    if es != [] {
      var init := es[..|es| - 1];
      CollectKeys(init);
      forall id ensures id in Collect(es) <==> exists j :: 0 <= j < |es| && es[j].Some? && es[j].value.id == id {
        if exists j :: 0 <= j < |init| && init[j].Some? && init[j].value.id == id {
          var j :| 0 <= j < |init| && init[j].Some? && init[j].value.id == id;
          assert es[j] == init[j];
        }
        if exists j :: 0 <= j < |es| && es[j].Some? && es[j].value.id == id {
          var j :| 0 <= j < |es| && es[j].Some? && es[j].value.id == id;
          if j < |init| {
            assert init[j] == es[j];
          }
        }
      }
    }
  }

  /** Entry `j` names a job, and no later entry has its id. */
  predicate LastFor(es: seq<Option<Entry>>, j: nat)
    requires j < |es|
  {
    es[j].Some? && forall m :: j < m < |es| && es[m].Some? ==> es[m].value.id != es[j].value.id
  }

  /** An id's job comes from the last entry with that id. */
  lemma {:induction false} CollectLastWins(es: seq<Option<Entry>>, j: nat)
    requires j < |es| && LastFor(es, j)
    ensures es[j].value.id in Collect(es) && Collect(es)[es[j].value.id] == es[j].value.job
  {
    var init := es[..|es| - 1];
    if j < |es| - 1 {
      assert init[j] == es[j];
      assert LastFor(init, j) by {
        forall m | j < m < |init| && init[m].Some? ensures init[m].value.id != init[j].value.id {
          assert init[m] == es[m];
        }
      }
      CollectLastWins(init, j);
    }
  }

  /** The table holds exactly the ids of the blocks that name a job, and each id's job is read
      from the last block naming it. */
  lemma TableContract(blocks: seq<string>)
    ensures forall j :: 0 <= j < |blocks| ==> Entries(blocks)[j] == EntryOf(blocks[j])
    ensures forall id :: id in Table(blocks) <==>
      exists j :: 0 <= j < |blocks| && EntryOf(blocks[j]).Some? && EntryOf(blocks[j]).value.id == id
    ensures forall j :: 0 <= j < |blocks| && LastFor(Entries(blocks), j) ==>
      Table(blocks)[EntryOf(blocks[j]).value.id] == EntryOf(blocks[j]).value.job
  {
    var es := Entries(blocks);
    CollectKeys(es);
    forall j | 0 <= j < |blocks| ensures es[j] == EntryOf(blocks[j]) {
      EntriesAt(blocks, j);
    }
    forall j | 0 <= j < |blocks| && LastFor(es, j)
      ensures Table(blocks)[EntryOf(blocks[j]).value.id] == EntryOf(blocks[j]).value.job
    {
      CollectLastWins(es, j);
    }
  }

  /** A `null` TRES list reads as zero of everything. */
  lemma NullTresIsZero()
    ensures WellFormed(NullTres) && TresOf(NullTres) == Zero
  {
    NullItems();
    TresOfThree(CpuKey, "0", MemKey, "0G", GpuKey, "0");
    NullValues();
    assert WithDefaults(map[CpuKey := "0", MemKey := "0G", GpuKey := "0"]) == Zero;
  }

  /** Every job's TRES record has `cpu`, `mem` and `gres/gpu`; a job whose TRES list mentions
      `null` gets zero of each. */
  lemma JobTres(job: string)
    ensures CpuKey in JobOf(job).tres && MemKey in JobOf(job).tres && GpuKey in JobOf(job).tres
    ensures NullTresText(job) ==> JobOf(job).tres == Zero
    ensures !NullTresText(job) ==> JobOf(job).tres == TresOf(Field(job, "TRES="))
  {
    ParseTresContract(Field(job, "TRES="));
  }

  /** The job id stops at the first space, and the user name at the first `(` (the numeric
      uid that follows it is dropped). */
  lemma JobFields(job: string)
    ensures !Contains(JobId(job), " ")
    ensures !Contains(JobOf(job).user, "(")
  {
    BeforeClean(Piece(job, "JobId=", 1), " ");
    BeforeClean(Field(job, "UserId="), "(");
  }

  /** The three items of `NullTres` are `key=value` pairs with distinct keys. */
  lemma NullItems()
    ensures ',' !in Item(CpuKey, "0") && ',' !in Item(MemKey, "0G") && ',' !in Item(GpuKey, "0")
    ensures '=' !in CpuKey && '=' !in MemKey && '=' !in GpuKey && '=' !in "0" && '=' !in "0G"
    ensures CpuKey != MemKey && CpuKey != GpuKey && MemKey != GpuKey
  {
  }

  lemma NullValues()
    ensures Strip("0") == "0" && Strip("0G") == "0G"
  {
    var zero, zeroG := "0", "0G";
    assert !IsSpace('0') && !IsSpace('G');
    assert NoSpace(zero) by {
      assert forall i :: 0 <= i < |zero| ==> zero[i] == '0';
    }
    assert NoSpace(zeroG) by {
      assert forall i :: 0 <= i < |zeroG| ==> zeroG[i] == '0' || zeroG[i] == 'G';
    }
  }
}
