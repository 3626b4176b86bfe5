/**
  Saving a manifest: write a temporary file, then rename it over the target.

  The operating system is a script with one entry per system call.  A process that reaches the end of
  its script dies there, so a prefix of a script is a crash after that many steps.  The last entry a
  successful save consumes is its return to the caller.
 */
module ManifestStore {
  import opened Common
  import opened TextCodec
  import opened Progress
  import opened ProgressText
  import opened RangeLists
  import opened ManifestText
  import Checksum
  import ManifestKeys
  import T = TransferManifests

  datatype Call = Succeeds(bytes: nat) | Interrupted | Fails

  datatype Outcome = Done | Failed | Crashed

  type Files = map<string, string>

  datatype Option<+V> = None | Some(value: V)

  function At(files: Files, path: string): Option<string> {
    if path in files then Some(files[path]) else None
  }

  function TempPath(path: string, pid: nat): (temp: string)
    ensures temp != path
  {
    var temp := path + ".tmp." + Decimal(pid);
    assert |temp| > |path|;
    temp
  }

  /** Two processes never share a temporary file. */
  lemma TempPathOwn(path: string, a: nat, b: nat)
    ensures TempPath(path, a) == TempPath(path, b) ==> a == b
  {
    var prefix := path + ".tmp.";
    DecimalRoundTrip(a);
    DecimalRoundTrip(b);
    assert TempPath(path, a)[|prefix|..] == Decimal(a) && TempPath(path, b)[|prefix|..] == Decimal(b);
  }

  // ----- One save, step by step -----

  /** The short-write loop on the open temporary file; gives the files, the calls left and the outcome. */
  function WriteAll(files: Files, temp: string, text: string, completed: nat, script: seq<Call>)
    : (Files, seq<Call>, Outcome)
    requires temp in files && completed <= |text|
    decreases |script|
  {
    if completed == |text| then (files, script, Done)
    else if script == [] then (files, [], Crashed)
    else match script[0]
      case Interrupted => WriteAll(files, temp, text, completed, script[1..])
      case Fails => (files, script[1..], Failed)
      case Succeeds(n) =>
        if n == 0 then (files, script[1..], Failed) else
          var k := if completed + n <= |text| then n else |text| - completed;
          WriteAll(files[temp := files[temp] + text[completed..completed + k]], temp, text, completed + k, script[1..])
  }

  /** Unlink the temporary file, whatever the result, and report failure. */
  function Abandon(files: Files, temp: string, script: seq<Call>): (Files, Outcome) {
    if script == [] then (files, Crashed)
    else if script[0].Succeeds? then (files - {temp}, Failed)
    else (files, Failed)
  }

  function Rename(files: Files, temp: string, path: string, script: seq<Call>): (Files, Outcome)
    requires temp in files
  {
    if script == [] then (files, Crashed)
    else if !script[0].Succeeds? then Abandon(files, temp, script[1..])
    else (files[path := files[temp]] - {temp}, if |script| == 1 then Crashed else Done)
  }

  function Save(files: Files, path: string, temp: string, text: string, script: seq<Call>): (Files, Outcome) {
    if script == [] then (files, Crashed)
    else if !script[0].Succeeds? then (files, Failed)
    else
      var (written, rest, outcome) := WriteAll(files[temp := ""], temp, text, 0, script[1..]);
      if outcome.Crashed? || rest == [] then (written, Crashed)
      else if outcome.Failed? then Abandon(written, temp, rest[1..])
      else if !rest[0].Succeeds? then Abandon(written, temp, rest[1..])
      else
        WriteAllShape(files[temp := ""], temp, text, 0, script[1..]);
        Rename(written, temp, path, rest[1..])
  }

  lemma {:induction false} WriteAllShape(files: Files, temp: string, text: string, completed: nat, script: seq<Call>)
    requires temp in files && completed <= |text| && files[temp] == text[..completed]
    ensures var (written, rest, outcome) := WriteAll(files, temp, text, completed, script);
      && temp in written && written[temp] <= text
      && (outcome.Done? ==> written[temp] == text)
      && (forall q :: q != temp ==> At(written, q) == At(files, q))
    decreases |script|
  {
    if completed == |text| {
      assert text[..completed] == text;
    } else if script != [] {
      match script[0]
      case Interrupted => WriteAllShape(files, temp, text, completed, script[1..]);
      case Fails =>
      case Succeeds(n) =>
        if n != 0 {
          var k := if completed + n <= |text| then n else |text| - completed;
          assert text[..completed] + text[completed..completed + k] == text[..completed + k];
          WriteAllShape(files[temp := files[temp] + text[completed..completed + k]], temp, text, completed + k,
                        script[1..]);
        }
    }
  }

  lemma AbandonSafe(files: Files, temp: string, script: seq<Call>)
    ensures var (after, outcome) := Abandon(files, temp, script);
      !outcome.Done? && forall q :: q != temp ==> At(after, q) == At(files, q)
  {
  }

  lemma RenameSafe(files: Files, temp: string, path: string, script: seq<Call>)
    requires temp in files && temp != path
    ensures var (after, outcome) := Rename(files, temp, path, script);
      && (outcome.Done? ==> At(after, path) == Some(files[temp]) && temp !in after)
      && (outcome.Failed? ==> At(after, path) == At(files, path))
      && (outcome.Crashed? ==> At(after, path) == At(files, path) || At(after, path) == Some(files[temp]))
      && (forall q :: q != path && q != temp ==> At(after, q) == At(files, q))
  {
    if script != [] {
      AbandonSafe(files, temp, script[1..]);
    }
  }

  /**
    However the save ends, the target holds its old content or the complete new text: new if it
    succeeded, old if it failed.  No other file but the temporary one changes.
   */
  lemma SaveSafe(files: Files, path: string, temp: string, text: string, script: seq<Call>)
    requires temp != path
    ensures var (after, outcome) := Save(files, path, temp, text, script);
      && (outcome.Done? ==> At(after, path) == Some(text) && temp !in after)
      && (outcome.Failed? ==> At(after, path) == At(files, path))
      && (outcome.Crashed? ==> At(after, path) == At(files, path) || At(after, path) == Some(text))
      && (forall q :: q != path && q != temp ==> At(after, q) == At(files, q))
  {
    hide WriteAll;
    if script != [] && script[0].Succeeds? {
      var truncated := files[temp := ""];
      WriteAllShape(truncated, temp, text, 0, script[1..]);
      var (written, rest, outcome) := WriteAll(truncated, temp, text, 0, script[1..]);
      assert forall q :: q != temp ==> At(written, q) == At(files, q) by {
        assert forall q :: q != temp ==> At(truncated, q) == At(files, q);
      }
      if rest != [] {
        AbandonSafe(written, temp, rest[1..]);
        RenameSafe(written, temp, path, rest[1..]);
      }
    }
  }

  // ----- Which answers make a save fail, and which make it succeed -----

  /** A write answer after which the loop goes on. */
  predicate GoesOn(answer: Call) {
    answer.Interrupted? || (answer.Succeeds? && answer.bytes > 0)
  }

  /** How many bytes a list of write answers took. */
  function Taken(answers: seq<Call>): nat {
    if answers == [] then 0 else
      Taken(answers[..|answers| - 1]) + (if answers[|answers| - 1].Succeeds? then answers[|answers| - 1].bytes else 0)
  }

  /** Interruptions and positive writes that together still leave some of `length` bytes unwritten. */
  ghost predicate Unfinished(answers: seq<Call>, length: int) {
    (forall i :: 0 <= i < |answers| ==> GoesOn(answers[i])) && Taken(answers) < length
  }

  /** Interruptions and positive writes whose last one completes `length` bytes. */
  ghost predicate Finished(answers: seq<Call>, length: int) {
    && (forall i :: 0 <= i < |answers| ==> GoesOn(answers[i])) && Taken(answers) >= length
    && (answers == [] || Taken(answers[..|answers| - 1]) < length)
  }

  lemma {:induction false} TakenFront(answers: seq<Call>)
    requires answers != []
    ensures Taken(answers) == (if answers[0].Succeeds? then answers[0].bytes else 0) + Taken(answers[1..])
    decreases |answers|
  {
    var n := |answers| - 1;
    if n > 0 {
      TakenFront(answers[..n]);
      assert answers[..n][1..] == answers[1..][..n - 1];
      assert answers[1..][n - 1] == answers[n];
    } else {
      assert answers[1..] == [] && answers[..0] == [];
    }
  }

  /** Dropping the first answer of a list that goes on. */
  lemma FrontUnfinished(answers: seq<Call>, length: int)
    requires answers != [] && GoesOn(answers[0])
    ensures var n := if answers[0].Succeeds? then answers[0].bytes else 0;
      Unfinished(answers, length) <==> Unfinished(answers[1..], length - n)
  {
    TakenFront(answers);
    assert answers == [answers[0]] + answers[1..];
  }

  lemma FrontFinished(answers: seq<Call>, length: int)
    requires answers != [] && GoesOn(answers[0]) && length > 0
    ensures var n := if answers[0].Succeeds? then answers[0].bytes else 0;
      Finished(answers, length) ==> if n >= length then |answers| == 1 else Finished(answers[1..], length - n)
  {
    var n := if answers[0].Succeeds? then answers[0].bytes else 0;
    TakenFront(answers);
    assert answers == [answers[0]] + answers[1..];
    if Finished(answers, length) && |answers| > 1 {
      TakenFront(answers[..|answers| - 1]);
      assert answers[..|answers| - 1][1..] == answers[1..][..|answers| - 2];
    }
  }

  /** Enough writes end the loop well, right after the last of them. */
  lemma {:induction false} WriteFinishes(files: Files, temp: string, text: string, completed: nat, script: seq<Call>,
                                         k: nat)
    requires temp in files && completed <= |text| && k <= |script| && Finished(script[..k], |text| - completed)
    ensures var (_, rest, outcome) := WriteAll(files, temp, text, completed, script);
      rest == script[k..] && outcome.Done?
    decreases |script|
  {
    if completed < |text| {
      var answer := script[0];
      assert script[..k][0] == answer;
      FrontFinished(script[..k], |text| - completed);
      assert script[..k][1..] == script[1..][..k - 1];
      match answer
      case Interrupted => WriteFinishes(files, temp, text, completed, script[1..], k - 1);
      case Succeeds(n) =>
        var m := if completed + n <= |text| then n else |text| - completed;
        var written := files[temp := files[temp] + text[completed..completed + m]];
        if n >= |text| - completed {
          assert script[1..] == script[k..];
        } else {
          WriteFinishes(written, temp, text, completed + m, script[1..], k - 1);
        }
    }
  }

  /** A refused write ends the loop with a failure, right there. */
  lemma {:induction false} WriteRefused(files: Files, temp: string, text: string, completed: nat, script: seq<Call>,
                                        k: nat)
    requires temp in files && completed <= |text| && k < |script|
    requires Unfinished(script[..k], |text| - completed) && !GoesOn(script[k])
    ensures var (_, rest, outcome) := WriteAll(files, temp, text, completed, script);
      rest == script[k + 1..] && outcome.Failed?
    decreases |script|
  {
    if k > 0 {
      assert script[..k][0] == script[0];
      FrontUnfinished(script[..k], |text| - completed);
      assert script[..k][1..] == script[1..][..k - 1];
      match script[0]
      case Interrupted => WriteRefused(files, temp, text, completed, script[1..], k - 1);
      case Succeeds(n) =>
        assert Unfinished(script[1..][..k - 1], |text| - completed - n);
        var written := files[temp := files[temp] + text[completed..completed + n]];
        WriteRefused(written, temp, text, completed + n, script[1..], k - 1);
    }
  }

  /** Running out of answers before the end is a crash. */
  lemma {:induction false} WriteCrashes(files: Files, temp: string, text: string, completed: nat, script: seq<Call>)
    requires temp in files && completed <= |text| && Unfinished(script, |text| - completed)
    ensures WriteAll(files, temp, text, completed, script).2.Crashed?
    decreases |script|
  {
    if script != [] {
      FrontUnfinished(script, |text| - completed);
      match script[0]
      case Interrupted => WriteCrashes(files, temp, text, completed, script[1..]);
      case Succeeds(n) =>
        var written := files[temp := files[temp] + text[completed..completed + n]];
        WriteCrashes(written, temp, text, completed + n, script[1..]);
    }
  }

  /** The writes start after `open`; call `k` is the `close` of a script whose writes completed the text. */
  ghost predicate Written(script: seq<Call>, length: nat, k: nat) {
    1 <= k <= |script| && script[0].Succeeds? && Finished(script[1..k], length)
  }

  /** Call `k` is a write of an unfinished text. */
  ghost predicate Writing(script: seq<Call>, length: nat, k: nat) {
    1 <= k <= |script| && script[0].Succeeds? && Unfinished(script[1..k], length)
  }

  /** Open, enough writes, close, rename and the return all succeed. */
  ghost predicate CommitsAt(script: seq<Call>, length: nat, k: nat) {
    Written(script, length, k) && k + 2 < |script| && script[k].Succeeds? && script[k + 1].Succeeds?
  }

  /** Answer `k` refuses: an open, a write, a close or a rename. */
  ghost predicate RefusesAt(script: seq<Call>, length: nat, k: nat) {
    && k < |script|
    && (|| (k == 0 && !script[0].Succeeds?)
        || (Writing(script, length, k) && !GoesOn(script[k]))
        || (Written(script, length, k) && !script[k].Succeeds?)
        || (k > 0 && Written(script, length, k - 1) && script[k - 1].Succeeds? && !script[k].Succeeds?))
  }

  /** What follows a refusal: nothing after `open`, else the unlink, and before it the close of an unfinished file. */
  ghost function CleanUp(script: seq<Call>, length: nat, k: nat): nat {
    if k == 0 then 0 else if Writing(script, length, k) then 2 else 1
  }

  /** Answer `k` refuses and the process lives to clean up. */
  ghost predicate FailsAt(script: seq<Call>, length: nat, k: nat) {
    RefusesAt(script, length, k) && k + CleanUp(script, length, k) < |script|
  }

  lemma RefusedFails(files: Files, path: string, temp: string, text: string, script: seq<Call>, k: nat)
    requires FailsAt(script, |text|, k)
    ensures Save(files, path, temp, text, script).1.Failed?
  {
    hide WriteAll, Finished, Unfinished;
    var truncated := files[temp := ""];
    if k > 0 {
      if Writing(script, |text|, k) && !GoesOn(script[k]) {
        assert script[1..][..k - 1] == script[1..k];
        WriteRefused(truncated, temp, text, 0, script[1..], k - 1);
      } else if Written(script, |text|, k) && !script[k].Succeeds? {
        assert script[1..][..k - 1] == script[1..k];
        WriteFinishes(truncated, temp, text, 0, script[1..], k - 1);
        NotBoth(script[1..k], |text|);
      } else {
        assert script[1..][..k - 2] == script[1..k - 1];
        WriteFinishes(truncated, temp, text, 0, script[1..], k - 2);
      }
    }
  }

  lemma RefusedWriteCleans(files: Files, path: string, temp: string, text: string, script: seq<Call>, k: nat)
    requires Writing(script, |text|, k) && k + 2 < |script| && !GoesOn(script[k]) && script[k + 2].Succeeds?
    ensures temp !in Save(files, path, temp, text, script).0
  {
    hide WriteAll, Unfinished;
    assert script[1..][..k - 1] == script[1..k];
    WriteRefused(files[temp := ""], temp, text, 0, script[1..], k - 1);
  }

  lemma RefusedCloseCleans(files: Files, path: string, temp: string, text: string, script: seq<Call>, k: nat)
    requires Written(script, |text|, k) && k + 1 < |script| && !script[k].Succeeds? && script[k + 1].Succeeds?
    ensures temp !in Save(files, path, temp, text, script).0
  {
    hide WriteAll, Finished;
    assert script[1..][..k - 1] == script[1..k];
    WriteFinishes(files[temp := ""], temp, text, 0, script[1..], k - 1);
  }

  lemma RefusedRenameCleans(files: Files, path: string, temp: string, text: string, script: seq<Call>, k: nat)
    requires Written(script, |text|, k) && k + 2 < |script|
    requires script[k].Succeeds? && !script[k + 1].Succeeds? && script[k + 2].Succeeds?
    ensures temp !in Save(files, path, temp, text, script).0
  {
    hide WriteAll, Finished;
    assert script[1..][..k - 1] == script[1..k];
    WriteFinishes(files[temp := ""], temp, text, 0, script[1..], k - 1);
  }

  /** A save that failed after opening its temporary file has removed it, if the unlink worked. */
  lemma FailureCleansUp(files: Files, path: string, temp: string, text: string, script: seq<Call>, k: nat)
    requires FailsAt(script, |text|, k) && k > 0 && script[k + CleanUp(script, |text|, k)].Succeeds?
    ensures temp !in Save(files, path, temp, text, script).0
  {
    hide Save, Finished, Unfinished;
    if Writing(script, |text|, k) && !GoesOn(script[k]) {
      RefusedWriteCleans(files, path, temp, text, script, k);
    } else if Written(script, |text|, k) && !script[k].Succeeds? {
      NotBoth(script[1..k], |text|);
      RefusedCloseCleans(files, path, temp, text, script, k);
    } else {
      LongerFinished(script[1..k - 1], script[k - 1], |text|);
      assert script[1..k] == script[1..k - 1] + [script[k - 1]];
      RefusedRenameCleans(files, path, temp, text, script, k - 1);
    }
  }

  lemma NotBoth(answers: seq<Call>, length: int)
    ensures !(Finished(answers, length) && Unfinished(answers, length))
  {
  }

  lemma CommitSucceeds(files: Files, path: string, temp: string, text: string, script: seq<Call>, k: nat)
    requires CommitsAt(script, |text|, k)
    ensures Save(files, path, temp, text, script).1.Done?
  {
    hide WriteAll, Finished;
    assert script[1..][..k - 1] == script[1..k];
    WriteFinishes(files[temp := ""], temp, text, 0, script[1..], k - 1);
  }

  /** How far the write answers carry: to the end of the text, to a refusal, or to the end of the script. */
  lemma Carries(answers: seq<Call>, length: nat) returns (k: nat)
    ensures k <= |answers|
    ensures
      || Finished(answers[..k], length)
      || (Unfinished(answers[..k], length) && (k == |answers| || !GoesOn(answers[k])))
  {
    k := 0;
    if length == 0 {
      return;
    }
    while k < |answers| && GoesOn(answers[k])
      invariant k <= |answers| && Unfinished(answers[..k], length)
    {
      assert answers[..k + 1][..k] == answers[..k];
      k := k + 1;
      if Taken(answers[..k]) >= length {
        return;
      }
    }
  }

  lemma SaveOutcomeCases(files: Files, path: string, temp: string, text: string, script: seq<Call>)
    ensures var outcome := Save(files, path, temp, text, script).1;
      && (outcome.Done? ==> exists k: nat :: CommitsAt(script, |text|, k))
      && (outcome.Failed? ==> exists k: nat :: FailsAt(script, |text|, k))
  {
    hide WriteAll, Finished, Unfinished;
    var truncated := files[temp := ""];
    if script != [] {
      if script[0].Succeeds? {
        var k := Carries(script[1..], |text|);
        assert script[1..][..k] == script[1..k + 1];
        if Finished(script[1..k + 1], |text|) {
          NotBoth(script[1..k + 1], |text|);
          WriteFinishes(truncated, temp, text, 0, script[1..], k);
          WrittenCases(files, path, temp, text, script, k + 1);
        } else if k < |script| - 1 {
          WriteRefused(truncated, temp, text, 0, script[1..], k);
          assert FailsAt(script, |text|, k + 1) || |script| <= k + 3;
        } else {
          assert script[1..][..k] == script[1..];
          WriteCrashes(truncated, temp, text, 0, script[1..]);
        }
      } else {
        assert FailsAt(script, |text|, 0);
      }
    }
  }

  lemma WrittenCases(files: Files, path: string, temp: string, text: string, script: seq<Call>, k: nat)
    requires Written(script, |text|, k) && !Writing(script, |text|, k)
    requires var (_, rest, outcome) := WriteAll(files[temp := ""], temp, text, 0, script[1..]);
      rest == script[k..] && outcome.Done?
    ensures var outcome := Save(files, path, temp, text, script).1;
      && (outcome.Done? ==> CommitsAt(script, |text|, k))
      && (outcome.Failed? ==> exists j: nat :: FailsAt(script, |text|, j))
  {
    hide WriteAll, Finished, Unfinished;
    if k < |script| && !script[k].Succeeds? {
      assert FailsAt(script, |text|, k) || |script| <= k + 1;
    } else if k + 1 < |script| && !script[k + 1].Succeeds? {
      assert !Writing(script, |text|, k + 1) by {
        LongerFinished(script[1..k], script[k], |text|);
        assert script[1..k + 1] == script[1..k] + [script[k]];
      }
      assert FailsAt(script, |text|, k + 1) || |script| <= k + 2;
    }
  }

  /** Past the end of the text nothing is unfinished. */
  lemma LongerFinished(answers: seq<Call>, answer: Call, length: int)
    ensures Finished(answers, length) ==> !Unfinished(answers + [answer], length)
  {
    assert (answers + [answer])[..|answers|] == answers;
  }

  /**
    Exactly when a save succeeds or fails, once the text is printed.  It is done if and only if open,
    interruptions and positive writes that complete the text, close, rename and the return succeed; it
    fails if and only if some answer refuses and the clean-up after it completes.  Otherwise it dies.
   */
  lemma SaveOutcome(files: Files, path: string, temp: string, text: string, script: seq<Call>)
    ensures var outcome := Save(files, path, temp, text, script).1;
      && (outcome.Done? <==> exists k: nat :: CommitsAt(script, |text|, k))
      && (outcome.Failed? <==> exists k: nat :: FailsAt(script, |text|, k))
  {
    hide Save, CommitsAt, FailsAt;
    SaveOutcomeCases(files, path, temp, text, script);
    if k: nat :| CommitsAt(script, |text|, k) {
      CommitSucceeds(files, path, temp, text, script, k);
    }
    if k: nat :| FailsAt(script, |text|, k) {
      RefusedFails(files, path, temp, text, script, k);
    }
  }

  // ----- Runs of saves -----

  /** One process: it saves one manifest with the full or the fast printer and meets its own script. */
  datatype Job = Job(pid: nat, manifest: T.Manifest, prepared: bool, script: seq<Call>)

  function TextOf(job: Job): Result<string> {
    if job.prepared then T.SerializePrepared(job.manifest) else T.Serialize(job.manifest)
  }

  /** Either public save: a manifest the printer refuses fails before any file is touched. */
  function SaveJob(files: Files, path: string, job: Job): (Files, Outcome) {
    if TextOf(job).Err? then (files, Failed)
    else Save(files, path, TempPath(path, job.pid), TextOf(job).value, job.script)
  }

  function After(files: Files, path: string, jobs: seq<Job>): Files
    decreases |jobs|
  {
    if jobs == [] then files else SaveJob(After(files, path, jobs[..|jobs| - 1]), path, jobs[|jobs| - 1]).0
  }

  function OutcomeOf(files: Files, path: string, jobs: seq<Job>, i: nat): Outcome
    requires i < |jobs|
  {
    SaveJob(After(files, path, jobs[..i]), path, jobs[i]).1
  }

  lemma SaveJobSafe(files: Files, path: string, job: Job)
    ensures var (after, outcome) := SaveJob(files, path, job);
      && (!outcome.Failed? ==> TextOf(job).Ok?)
      && (outcome.Done? ==> At(after, path) == Some(TextOf(job).value))
      && (At(after, path) == At(files, path) || (!outcome.Failed? && At(after, path) == Some(TextOf(job).value)))
  {
    hide Save, TextOf, At;
    var (after, outcome) := SaveJob(files, path, job);
    assert outcome.Done? || outcome.Failed? || outcome.Crashed?;
    if TextOf(job).Ok? {
      SaveSafe(files, path, TempPath(path, job.pid), TextOf(job).value, job.script);
    }
  }

  /** After a successful save the target holds that save's text or that of a later save that did not fail. */
  lemma {:induction false} LastCommit(files: Files, path: string, jobs: seq<Job>, i: nat) returns (j: nat)
    requires i < |jobs| && OutcomeOf(files, path, jobs, i).Done?
    ensures i <= j < |jobs| && !OutcomeOf(files, path, jobs, j).Failed? && TextOf(jobs[j]).Ok?
    ensures At(After(files, path, jobs), path) == Some(TextOf(jobs[j]).value)
    ensures (forall k :: i < k < |jobs| ==> OutcomeOf(files, path, jobs, k).Failed?) ==> j == i
    decreases |jobs|
  {
    hide SaveJob, TextOf;
    var n := |jobs| - 1;
    var before := After(files, path, jobs[..n]);
    SaveJobSafe(before, path, jobs[n]);
    if i == n {
      j := n;
    } else {
      forall k | 0 <= k < n
        ensures OutcomeOf(files, path, jobs[..n], k) == OutcomeOf(files, path, jobs, k)
      {
        assert jobs[..n][..k] == jobs[..k];
      }
      j := LastCommit(files, path, jobs[..n], i);
      if At(After(files, path, jobs), path) != At(before, path) {
        j := n;
      }
    }
  }

  /** Over any run the target never holds a mixture: its first content or the full text of one of the saves. */
  lemma {:induction false} NeverMixed(files: Files, path: string, jobs: seq<Job>)
    ensures At(After(files, path, jobs), path) == At(files, path)
         || exists j :: 0 <= j < |jobs| && TextOf(jobs[j]).Ok?
                     && At(After(files, path, jobs), path) == Some(TextOf(jobs[j]).value)
    decreases |jobs|
  {
    hide SaveJob, TextOf;
    if jobs != [] {
      var n := |jobs| - 1;
      var before := After(files, path, jobs[..n]);
      NeverMixed(files, path, jobs[..n]);
      SaveJobSafe(before, path, jobs[n]);
      if At(before, path) != At(files, path) {
        var j :| 0 <= j < n && TextOf(jobs[..n][j]).Ok? && At(before, path) == Some(TextOf(jobs[..n][j]).value);
        assert jobs[..n][j] == jobs[j];
      }
    }
  }

  // ----- Loading -----

  function Load(files: Files, path: string): Result<T.Manifest> {
    if path !in files then Err("open manifest failed") else T.Parse(files[path])
  }

  /** The paths of a manifest are `std::string`s. */
  ghost predicate BytePaths(m: T.Manifest) {
    IsBytes(m.outputPath) && IsBytes(m.tempPath)
  }

  /** What the caller must have put into a saved manifest for a load to accept it. */
  ghost predicate Loadable(job: Job) {
    if job.prepared then T.ProgressOk(job.manifest)
    else SameAlgorithm(job.manifest.verifiedChunks, job.manifest.algorithm)
  }

  /** A saved text loads exactly when its manifest was loadable, and then in normal form. */
  lemma SavedText(job: Job)
    requires BytePaths(job.manifest) && TextOf(job).Ok?
    ensures var m, loaded := job.manifest, T.Parse(TextOf(job).value);
      && (loaded.Ok? <==> Loadable(job))
      && (loaded.Ok? ==> InsertAll([], m.verifiedChunks, m.totalSize).Ok? && loaded == Ok(T.Normalized(m)))
  {
    hide T.Parse, T.SerializePrepared, T.Serialize, InsertAll;
    var m := job.manifest;
    if job.prepared {
      PreparedHeader(m);
      T.PreparedReads(m);
    } else {
      T.SerializeNormalizes(m);
      T.RoundTrip(m);
    }
  }

  lemma PreparedHeader(m: T.Manifest)
    ensures T.SerializePrepared(m).Ok? <==> T.CheckHeader(m).Ok?
  {
  }

  /**
    Over any run of saves, with either printer: once a save has succeeded, loading reads what the last
    committed save wrote.  It succeeds if and only if that save's manifest was loadable, and then gives
    that manifest in normal form.
   */
  lemma LoadAfterSaves(files: Files, path: string, jobs: seq<Job>, i: nat) returns (j: nat)
    requires i < |jobs| && OutcomeOf(files, path, jobs, i).Done?
    requires forall k :: 0 <= k < |jobs| ==> BytePaths(jobs[k].manifest)
    ensures i <= j < |jobs| && !OutcomeOf(files, path, jobs, j).Failed?
    ensures var m, loaded := jobs[j].manifest, Load(After(files, path, jobs), path);
      && (loaded.Ok? <==> Loadable(jobs[j]))
      && (loaded.Ok? ==> InsertAll([], m.verifiedChunks, m.totalSize).Ok? && loaded == Ok(T.Normalized(m)))
    ensures (forall k :: i < k < |jobs| ==> OutcomeOf(files, path, jobs, k).Failed?) ==> j == i
  {
    hide TextOf, T.Parse, After, OutcomeOf, InsertAll, Loadable;
    j := LastCommit(files, path, jobs, i);
    SavedText(jobs[j]);
  }

  /** A save that meets no trouble: open, one write, close, rename, return. */
  function Smooth(text: string): seq<Call> {
    [Succeeds(0), Succeeds(|text|), Succeeds(0), Succeeds(0), Succeeds(0)]
  }

  lemma SmoothSaves(files: Files, path: string, job: Job)
    requires TextOf(job).Ok? && TextOf(job).value != "" && job.script == Smooth(TextOf(job).value)
    ensures SaveJob(files, path, job).1.Done?
  {
    hide TextOf;
    var temp, text := TempPath(path, job.pid), TextOf(job).value;
    var truncated, rest := files[temp := ""], job.script[1..];
    assert rest[0] == Succeeds(|text|);
    var written := truncated[temp := truncated[temp] + text[0..|text|]];
    assert WriteAll(truncated, temp, text, 0, rest) == WriteAll(written, temp, text, |text|, rest[1..]);
    assert rest[1..][0] == Succeeds(0) && rest[1..][1..] == [Succeeds(0), Succeeds(0)];
  }

  /** A one-byte file under CRC32C with the given progress. */
  function OneByte(ranges: seq<Range>, chunks: seq<Record>): T.Manifest {
    T.Manifest(2, "a", "o", "t", 1, 1, Checksum.Castagnoli, 0, 0, ManifestKeys.Transferring, ranges, chunks)
  }

  /** To the full printer a record without a checksum; to the fast one a completed byte that no record verifies. */
  function Unloadable(prepared: bool): T.Manifest {
    if prepared then OneByte([Range(0, 1)], []) else OneByte([], [Record(0, 0, 1, Checksum.NoChecksum, 0)])
  }

  lemma SealedNonEmpty()
    ensures forall body :: Sealed(body) != ""
  {
  }

  lemma UnloadablePrints(prepared: bool, script: seq<Call>)
    ensures var job := Job(0, Unloadable(prepared), prepared, script);
      TextOf(job).Ok? && TextOf(job).value != "" && BytePaths(job.manifest) && !Loadable(job)
  {
    hide InsertAll, Sorted, T.Serialize, T.Entries, Body, Sealed, Derived;
    var m := Unloadable(prepared);
    SealedNonEmpty();
    assert m.transferId == "a" && T.CheckHeader(m).Ok?;
    if prepared {
      assert m.completedRanges[0] == Range(0, 1);
      assert Covers(m.completedRanges, 0) && !ChunkCovers(m.verifiedChunks, 0);
    } else {
      T.SerializeNormalizes(m);
      assert Disjoint(m.verifiedChunks, 1);
      assert T.Serialize(m) == T.SerializePrepared(T.Normalized(m));
      assert m.verifiedChunks[0] in m.verifiedChunks;
    }
  }

  /** Either public save can report success, replace whatever was there, and leave a manifest that cannot be loaded. */
  lemma SavedUnloadable(files: Files, path: string, prepared: bool)
    ensures exists script :: var jobs := [Job(0, Unloadable(prepared), prepared, script)];
      OutcomeOf(files, path, jobs, 0).Done? && Load(After(files, path, jobs), path).Err?
  {
    hide TextOf, Loadable, SaveJob, Load;
    UnloadablePrints(prepared, []);
    var script := Smooth(TextOf(Job(0, Unloadable(prepared), prepared, [])).value);
    var job := Job(0, Unloadable(prepared), prepared, script);
    TextIgnoresScript(job, []);
    UnloadablePrints(prepared, script);
    SmoothSaves(files, path, job);
    var jobs := [job];
    assert jobs[..0] == [];
    var j := LoadAfterSaves(files, path, jobs, 0);
  }

  lemma TextIgnoresScript(job: Job, script: seq<Call>)
    ensures TextOf(job.(script := script)) == TextOf(job)
  {
  }

  // ----- The code -----

  class Disk {
    var files: Files
    var script: seq<Call>  // what the operating system will answer

    constructor (files: Files, script: seq<Call>)
      ensures this.files == files && this.script == script
    {
      this.files, this.script := files, script;
    }

    method WriteLoop(temp: string, text: string) returns (outcome: Outcome)
      requires temp in files
      modifies this
      ensures (files, script, outcome) == WriteAll(old(files), temp, text, 0, old(script))
    {
      var completed := 0;
      while completed < |text|
        invariant 0 <= completed <= |text| && temp in files
        invariant WriteAll(files, temp, text, completed, script) == WriteAll(old(files), temp, text, 0, old(script))
        decreases |script|
      {
        if script == [] {
          return Crashed;
        }
        var answer := script[0];
        script := script[1..];
        if answer.Succeeds? && answer.bytes > 0 {
          var k := if completed + answer.bytes <= |text| then answer.bytes else |text| - completed;
          files := files[temp := files[temp] + text[completed..completed + k]];
          completed := completed + k;
        } else if answer.Interrupted? {
          // the source retries
        } else {
          return Failed;
        }
      }
      return Done;
    }

    method RemoveTemp(temp: string) returns (outcome: Outcome)
      modifies this
      ensures (files, outcome) == Abandon(old(files), temp, old(script))
    {
      if script == [] {
        return Crashed;
      }
      if script[0].Succeeds? {
        files := files - {temp};
      }
      script := script[1..];
      return Failed;
    }

    /** Open, write, close, rename; on any error remove the temporary file. */
    method SaveText(path: string, pid: nat, text: string) returns (outcome: Outcome)
      modifies this
      ensures (files, outcome) == Save(old(files), path, TempPath(path, pid), text, old(script))
    {
      hide WriteAll, Abandon;
      var temp := TempPath(path, pid);
      if script == [] {
        return Crashed;
      }
      var openResult := script[0];
      script := script[1..];
      if !openResult.Succeeds? {
        return Failed;
      }
      files := files[temp := ""];
      WriteAllShape(files, temp, text, 0, script);
      outcome := WriteLoop(temp, text);
      if outcome.Crashed? || script == [] {
        return Crashed;
      }
      var closed := script[0];
      script := script[1..];
      if outcome.Failed? || !closed.Succeeds? {
        outcome := RemoveTemp(temp);
        return;
      }
      if script == [] {
        return Crashed;
      }
      var renamed := script[0];
      script := script[1..];
      if !renamed.Succeeds? {
        outcome := RemoveTemp(temp);
        return;
      }
      files := files[path := files[temp]] - {temp};
      return if script == [] then Crashed else Done;
    }

    /** The two public saves: the full printer, or the fast one when `prepared`. */
    method SaveAtomic(path: string, pid: nat, m: T.Manifest, prepared: bool) returns (outcome: Outcome)
      modifies this
      ensures (files, outcome) == SaveJob(old(files), path, Job(pid, m, prepared, old(script)))
    {
      var text := if prepared then T.SerializePrepared(m) else T.Serialize(m);
      if text.Err? {
        return Failed;
      }
      outcome := SaveText(path, pid, text.value);
    }
  }

  /** One process after another on the same disk, each dying or returning wherever its script ends. */
  method RunSaves(disk: Disk, path: string, jobs: seq<Job>) returns (outcomes: seq<Outcome>)
    modifies disk
    ensures disk.files == After(old(disk.files), path, jobs)
    ensures |outcomes| == |jobs|
    ensures forall i :: 0 <= i < |jobs| ==> outcomes[i] == OutcomeOf(old(disk.files), path, jobs, i)
  {
    hide SaveJob;
    outcomes := [];
    for n := 0 to |jobs|
      invariant disk.files == After(old(disk.files), path, jobs[..n])
      invariant |outcomes| == n && forall i :: 0 <= i < n ==> outcomes[i] == OutcomeOf(old(disk.files), path, jobs, i)
    {
      assert jobs[..n + 1][..n] == jobs[..n];
      disk.script := jobs[n].script;
      var outcome := disk.SaveAtomic(path, jobs[n].pid, jobs[n].manifest, jobs[n].prepared);
      outcomes := outcomes + [outcome];
    }
    assert jobs[..|jobs|] == jobs;
  }
}
