/** Cards that provisioning and its disarm step do not leave as promised: an example for each
    condition in `ProvisionLaws` and `CmdlineHook`. */
module ProvisionGaps {
  import opened Texts
  import opened TextSearch
  import opened Provision
  import opened CmdlineHook
  import opened ProvisionLaws

  /** Nothing is asked for but the script. */
  const BARE := Settings(None, Lit("#!/bin/sh"), false, [], [], [], [])

  /** Every write is done, but for that of the command line, which is cut off at once. */
  function Unlucky(p: Path): Fate {
    if p == Cmdline then Killed(Some(0)) else Written
  }

  function Lucky(p: Path): Fate {
    Written
  }

  const SHORT: Text := [97]
  const TWO_LINES: Text := [97, 10, 98]

  lemma ShortLine(line: Text)
    requires line == SHORT || line == TWO_LINES
    ensures Strip(line) == line && !Armed(line)
  {
    hide Find;
    StripTight(line);
    RunWord();
    FindNone(line, RUN);
  }

  /** A bare run lays the script down and comes to the command line. */
  lemma BareLaid(files: Files, luck: Luck)
    requires luck(FirstRun) == Written
    ensures Laid(files, BARE, luck) == (files[FirstRun := BARE.script], true)
  {
    hide Lit;
    assert PayloadOf(BARE) == [] && Copy(files, [], luck) == (files, Complete);
    assert Inert(BARE) == [(FirstRun, BARE.script)];
    assert Inert(BARE)[1..] == [];
    assert Lay(files[FirstRun := BARE.script], [], luck) == (files[FirstRun := BARE.script], true);
  }

  lemma BareRuns(files: Files, luck: Luck)
    requires Cmdline in files && luck(FirstRun) == Written && luck(Cmdline) == Written
    ensures Run(true, files, BARE, luck).1.Ok? && DistinctNames(PayloadOf(BARE))
  {
    hide Laid, Report, PayloadCount, Copy, APPEND, Strip, Armed, Lit;
    BareLaid(files, luck);
  }

  /** A line of which the write keeps nothing is lost: the retry succeeds and makes another
      card. */
  lemma {:induction false} LineLostForGood()
    ensures var files := map[Cmdline := SHORT];
      var broken := Run(true, files, BARE, Unlucky).0;
      && Cmdline in broken && Run(true, broken, BARE, Lucky).1.Ok? && Run(true, files, BARE, Lucky).1.Ok?
      && Run(true, broken, BARE, Lucky).0 != Run(true, files, BARE, Lucky).0
  {
    hide Run, Laid, APPEND, Strip, Armed, BARE;
    var files: Files := map[Cmdline := SHORT];
    BareLaid(files, Unlucky);
    LineAfter(files, BARE, Unlucky);
    var broken := Run(true, files, BARE, Unlucky).0;
    BareRuns(broken, Lucky);
    BareRuns(files, Lucky);
    ShortLine(SHORT);
    HookShape();
    assert LineLost(files, BARE, Unlucky);
    RetryExact(files, BARE, Unlucky, Lucky, Lucky);
  }

  /** Of a command line of two lines the firmware reads the first, and the hook is on the
      second. */
  lemma {:induction false} HookOnSecondLine()
    ensures var files := map[Cmdline := TWO_LINES];
      var r := Run(true, files, BARE, Lucky);
      r.1.Ok? && Cmdline in r.0 && Armed(r.0[Cmdline]) && !Armed(FirstLine(r.0[Cmdline]))
  {
    hide Run, Laid, APPEND, Strip, Armed, BARE, FirstLine, Final, Ready, Whole, Read;
    var files: Files := map[Cmdline := TWO_LINES];
    BareRuns(files, Lucky);
    ShortLine(TWO_LINES);
    assert TWO_LINES[1] == NEWLINE;
    FirmwareSeesHook(true, files, BARE, Lucky);
    SuccessMeansDone(true, files, BARE, Lucky);
    FinalSettles(TWO_LINES);
    ReadIs(Run(true, files, BARE, Lucky).0, Cmdline);
  }

  /** A unit of the owner's own does not survive the disarm step. */
  lemma {:induction false} OwnUnitLost(before: Text, after: Text)
    ensures var line := before + UNIT_PATTERN + after;
      Disarm(line + APPEND) != line
  {
    hide Disarm, APPEND, UNIT_PATTERN;
    var line := before + UNIT_PATTERN + after;
    assert line[|before|..] == UNIT_PATTERN + after;
    assert Hit(line[|before|..], UNIT_PATTERN);
    DisarmExact(line);
  }
}
