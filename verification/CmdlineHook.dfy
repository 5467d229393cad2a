/** The hook on the kernel command line: how it is recognised, what a cut leaves of it, and
    the substitutions that take it off again (pi.py, the disarm step of the first-boot script). */
module CmdlineHook {
  import opened Texts
  import opened TextSearch
  import opened Provision

  const SPACE: CodePoint := 32
  const NEWLINE: CodePoint := 10
  const DOT: CodePoint := 46

  /** The part of each hook in front of its value; `sed` reads the dot as any character. */
  const RUN_PATTERN: Text := Lit(" systemd.run=")
  const ACTION_PATTERN: Text := Lit(" systemd.run_success_action=")
  const UNIT_PATTERN: Text := Lit(" systemd.unit=")

  // ------------------------------------------------------------ recognising the hook

  predicate Spaceless(w: Text) {
    forall i :: 0 <= i < |w| ==> !IsSpace(w[i])
  }

  lemma RunWord()
    ensures |RUN| == 12 && Spaceless(RUN)
  {
    assert forall i :: 0 <= i < 12 ==> RUN[i] == "systemd.run="[i] as int;
  }

  lemma SliceOfSlice(t: Text, i: nat, j: nat, a: nat, b: nat)
    requires i <= j <= |t| && a <= b <= j - i
    ensures t[i..j][a..b] == t[i + a..i + b]
  {
    assert forall m :: 0 <= m < b - a ==> t[i..j][a..b][m] == t[i + a + m];
  }

  /** A word without spaces stands in a text exactly when it stands in its strip. */
  lemma {:induction false} WordSurvivesStrip(t: Text, w: Text)
    requires w != [] && Spaceless(w)
    ensures Find(t, w).Some? <==> Find(Strip(t), w).Some?
  {
    hide Strip, Find;
    var i, j := StripShape(t);
    var s := Strip(t);
    assert forall m :: 0 <= m < i ==> t[..i][m] == t[m];
    assert forall m :: j <= m < |t| ==> t[j..][m - j] == t[m];
    forall k: nat | At(s, w, k)
      ensures At(t, w, i + k)
    {
      SliceOfSlice(t, i, j, k, k + |w|);
    }
    forall k: nat | At(t, w, k)
      ensures k >= i && At(s, w, k - i)
    {
      assert t[k..k + |w|][0] == t[k] && t[k..k + |w|][|w| - 1] == t[k + |w| - 1];
      assert !IsSpace(t[k]) && !IsSpace(t[k + |w| - 1]);
      SliceOfSlice(t, i, j, k - i, k - i + |w|);
    }
  }

  lemma ArmedStrip(t: Text)
    ensures Armed(Strip(t)) <==> Armed(t)
  {
    hide Strip, Find;
    RunWord();
    WordSurvivesStrip(t, RUN);
  }

  lemma HookShape()
    ensures |RUN_HOOK| > 13 && RUN_HOOK[0] == SPACE && RUN_HOOK[1..13] == RUN
    ensures |APPEND| > 13 && APPEND[0] == SPACE && APPEND[1] != SPACE && !IsSpace(APPEND[|APPEND| - 1])
    ensures APPEND[1..13] == RUN && !IsSpace(APPEND[1])
  {
    assert RUN_HOOK[1..13] == RUN;
    assert APPEND[1..13] == RUN_HOOK[1..13];
    assert APPEND[|APPEND| - 1] == UNIT_HOOK[|UNIT_HOOK| - 1];
  }

  /** A line that was not armed is armed by the cut of an arming write exactly when the cut
      comes after the whole of `systemd.run=`. */
  lemma {:induction false} ArmedCut(text: Text, n: nat)
    requires !Armed(text) && n <= |text + APPEND|
    ensures Armed((text + APPEND)[..n]) <==> n >= |text| + 13
  {
    hide Find;
    RunWord();
    HookShape();
    var whole := text + APPEND;
    var line := whole[..n];
    if n >= |text| + 13 {
      assert line[|text| + 1..|text| + 13] == APPEND[1..13];
      assert At(line, RUN, |text| + 1);
    } else {
      forall k: nat | At(line, RUN, k)
        ensures At(text, RUN, k)
      {
        CutOccurrence(text, n, k);
      }
    }
  }

  lemma CutOccurrence(text: Text, n: nat, k: nat)
    requires n <= |text + APPEND| && n < |text| + 13 && At((text + APPEND)[..n], RUN, k)
    ensures At(text, RUN, k)
  {
    hide Find;
    RunWord();
    HookShape();
    var line := (text + APPEND)[..n];
    assert forall i :: k <= i < k + 12 ==> line[i] == line[k..k + 12][i - k];
    assert n > |text| ==> line[|text|] == SPACE;
    assert line[k..k + 12] == text[k..k + 12];
  }

  // ------------------------------------------------------------ a cut line, provisioned again

  lemma {:induction false} StripIsTight(t: Text)
    ensures Strip(t) != [] ==> !IsSpace(Strip(t)[0]) && !IsSpace(Strip(t)[|Strip(t)| - 1])
    ensures Strip(Strip(t)) == Strip(t)
  {
    hide StripLeft, StripRight;
    var i, j := StripShape(t);
    StripTight(Strip(t));
  }

  /** Arming twice is arming once. */
  lemma {:induction false} FinalSettles(t: Text)
    ensures Armed(Final(t)) && Final(Final(t)) == Final(t)
  {
    hide Strip, Find;
    ArmedStrip(t);
    ArmedStrip(Final(t));
    if !Armed(t) {
      HookShape();
      var text := Strip(t);
      ArmedCut(text, |text + APPEND|);
      assert (text + APPEND)[..|text + APPEND|] == text + APPEND;
    }
  }

  lemma StripShorter(t: Text)
    ensures |Strip(t)| <= |t|
    ensures (exists k :: 0 <= k < |t| && !IsSpace(t[k])) ==> Strip(t) != []
  {
    hide Strip;
    var i, j := StripShape(t);
  }

  lemma StripSpaceAfter(t: Text)
    ensures Strip(t + [SPACE]) == Strip(t)
  {
    hide StripRight;
    if t == [] {
      assert StripLeft([SPACE]) == StripLeft([SPACE][1..]) == [];
      assert t + [SPACE] == [SPACE];
    } else if IsSpace(t[0]) {
      assert (t + [SPACE])[1..] == t[1..] + [SPACE];
      StripSpaceAfter(t[1..]);
    } else {
      StripRightSpace(t);
    }
  }

  lemma StripRightSpace(t: Text)
    ensures StripRight(t + [SPACE]) == StripRight(t)
  {
    assert (t + [SPACE])[..|t|] == t;
  }

  /** A line cut further on than right after the hook's first space ends in part of a word. */
  lemma CutInWord(text: Text, n: nat)
    requires |text| + 1 < n < |text| + 13 && n <= |text + APPEND|
    ensures !IsSpace((text + APPEND)[..n][n - 1])
  {
    HookShape();
    RunWord();
    assert APPEND[1..13][n - |text| - 2] == APPEND[n - |text| - 1];
  }

  /** Of a line cut within the appended hook, the strip is the old line exactly when the cut
      came right before or right after the hook's first space. */
  lemma {:induction false} CutStrip(text: Text, n: nat)
    requires Strip(text) == text && n < |text| + 13 && n <= |text + APPEND|
    requires text != [] ==> !IsSpace(text[0]) && !IsSpace(text[|text| - 1])
    ensures Strip((text + APPEND)[..n]) == text <==> n == |text| || n == |text| + 1
  {
    hide Strip, IsSpace;
    HookShape();
    var c := (text + APPEND)[..n];
    StripShorter(c);
    if n == |text| {
      assert c == text;
    } else if n == |text| + 1 {
      assert c == text + [SPACE];
      StripSpaceAfter(text);
    } else if n > |text| + 1 {
      CutInWord(text, n);
      if text != [] {
        assert c[0] == text[0];
        StripTight(c);
      }
    }
  }

  /** Provisioning again after a cut write heals the line exactly if the cut left all of the
      old line and no more than a space of the hook, or left everything. */
  lemma {:induction false} CutHeals(line: Text, n: nat)
    requires !Armed(line)
    ensures Final(Cut(Strip(line) + APPEND, n)) == Final(line) <==>
      n >= |Strip(line) + APPEND| || n == |Strip(line)| || n == |Strip(line)| + 1
  {
    hide Strip, Find, APPEND;
    ArmedStrip(line);
    StripIsTight(line);
    HookShape();
    var text := Strip(line);
    var c := Cut(text + APPEND, n);
    ArmedStrip(c);
    if n < |text + APPEND| {
      ArmedCut(text, n);
      if n < |text| + 13 {
        CutStrip(text, n);
        SameEnd(Strip(c), text, APPEND);
      }
    } else {
      FinalSettles(line);
    }
  }

  lemma SameEnd(a: Text, b: Text, e: Text)
    ensures a + e == b + e <==> a == b
  {
    if a + e == b + e {
      assert |a| == |b|;
      assert a == (a + e)[..|a|] && b == (b + e)[..|b|];
    }
  }

  // ------------------------------------------------------------ taking the hook off

  predicate Stop(c: CodePoint) {
    c == SPACE || c == NEWLINE
  }

  /** The expression matches here: the dot is a wildcard within the line. */
  predicate Hit(t: Text, p: Text) {
    |p| <= |t| && forall i :: 0 <= i < |p| ==> p[i] == t[i] || (p[i] == DOT && t[i] != NEWLINE)
  }

  /** How far `[^ ]*` reaches. */
  function ValueLength(t: Text): (n: nat)
    ensures n <= |t| && (n < |t| ==> Stop(t[n]))
    ensures forall i :: 0 <= i < n ==> !Stop(t[i])
  {
    if t == [] || Stop(t[0]) then 0 else 1 + ValueLength(t[1..])
  }

  function AfterHit(t: Text, p: Text): (r: Text)
    requires Hit(t, p)
    ensures |r| <= |t| - |p| && r == t[|t| - |r|..] && (r == [] || Stop(r[0]))
  {
    t[|p| + ValueLength(t[|p|..])..]
  }

  /** `s|p[^ ]*||g` on every line of a text. */
  function RemoveAll(t: Text, p: Text): (r: Text)
    requires p != []
    ensures |r| <= |t|
    decreases |t|
  {
    if t == [] then []
    else if Hit(t, p) then RemoveAll(AfterHit(t, p), p)
    else [t[0]] + RemoveAll(t[1..], p)
  }

  /** The disarm step. */
  function Disarm(t: Text): Text {
    RemoveAll(RemoveAll(RemoveAll(t, RUN_PATTERN), ACTION_PATTERN), UNIT_PATTERN)
  }

  predicate IsHook(p: Text) {
    p == RUN_PATTERN || p == ACTION_PATTERN || p == UNIT_PATTERN
  }

  /** What the three expressions have in common: one space, in front, and a dot that no `s` follows. */
  lemma PatternShape(p: Text)
    requires IsHook(p)
    ensures |p| > 10 && p[0] == SPACE && p[8] == DOT && p[9] != 115
    ensures forall i :: 0 < i < |p| ==> !Stop(p[i]) && (p[i] == DOT ==> i == 8)
  {
    assert forall i :: 0 <= i < |RUN_PATTERN| ==> RUN_PATTERN[i] == " systemd.run="[i] as int;
    assert forall i :: 0 <= i < |ACTION_PATTERN| ==> ACTION_PATTERN[i] == " systemd.run_success_action="[i] as int;
    assert forall i :: 0 <= i < |UNIT_PATTERN| ==> UNIT_PATTERN[i] == " systemd.unit="[i] as int;
  }

  /** The text that follows starts a new parameter, or a new line, and the expression does not
      match across: its wildcard would have to stand for the space in front of that parameter. */
  predicate Fresh(y: Text, p: Text)
    requires |p| > 8
  {
    y == [] || (Stop(y[0]) && !Hit(p[..8] + y, p))
  }

  /** A setting of systemd's own in front. */
  predicate NewSetting(y: Text) {
    |y| > 1 && y[0] == SPACE && y[1] == 115
  }

  lemma SettingIsFresh(y: Text, p: Text)
    requires IsHook(p) && NewSetting(y)
    ensures |p| > 8 && Fresh(y, p)
  {
    hide IsHook;
    PatternShape(p);
    assert (p[..8] + y)[9] == y[1];
  }

  lemma HitConcat(x: Text, y: Text, p: Text)
    requires IsHook(p) && x != [] && |p| > 8 && Fresh(y, p)
    ensures Hit(x + y, p) <==> Hit(x, p)
  {
    hide IsHook;
    PatternShape(p);
    if Hit(x + y, p) && |x| < |p| && y != [] {
      CrossHit(x, y, p);
    }
  }

  /** The expression matches across a space only with its wildcard. */
  lemma CrossHit(x: Text, y: Text, p: Text)
    requires IsHook(p) && x != [] && |x| < |p| && |p| > 8 && y != [] && Stop(y[0]) && Hit(x + y, p)
    ensures Hit(p[..8] + y, p)
  {
    hide IsHook;
    PatternShape(p);
    var z, w := x + y, p[..8] + y;
    assert z[|x|] == y[0];
    assert |x| == 8;
    assert forall i :: 8 <= i < |p| ==> w[i] == z[i];
  }

  lemma {:induction false} ValueConcat(x: Text, y: Text)
    requires y == [] || Stop(y[0])
    ensures ValueLength(x + y) == ValueLength(x)
  {
    if x == [] {
      assert x + y == y;
    } else if !Stop(x[0]) {
      assert (x + y)[1..] == x[1..] + y;
      ValueConcat(x[1..], y);
    }
  }

  /** Each substitution works parameter by parameter. */
  lemma {:induction false} RemoveConcat(x: Text, y: Text, p: Text)
    requires IsHook(p) && |p| > 8 && Fresh(y, p)
    ensures RemoveAll(x + y, p) == RemoveAll(x, p) + RemoveAll(y, p)
    decreases |x|
  {
    hide IsHook, Hit;
    PatternShape(p);
    if x == [] {
      assert x + y == y;
    } else {
      HitConcat(x, y, p);
      if Hit(x, p) {
        HitFits(x, p);
        assert (x + y)[|p|..] == x[|p|..] + y;
        ValueConcat(x[|p|..], y);
        assert AfterHit(x + y, p) == AfterHit(x, p) + y;
        RemoveConcat(AfterHit(x, p), y, p);
      } else {
        assert (x + y)[1..] == x[1..] + y;
        RemoveConcat(x[1..], y, p);
      }
    }
  }

  lemma HitFits(t: Text, p: Text)
    ensures Hit(t, p) ==> |p| <= |t|
  {
  }

  // ------------------------------------------------------------ what the disarm step leaves

  predicate NoHit(t: Text, p: Text) {
    forall k :: 0 <= k <= |t| ==> !Hit(t[k..], p)
  }

  /** A substitution leaves a text alone exactly when its expression matches nowhere. */
  lemma {:induction false} RemoveAllExact(t: Text, p: Text)
    requires p != []
    ensures NoHit(t, p) <==> RemoveAll(t, p) == t
    ensures NoHit(t, p) <==> |RemoveAll(t, p)| == |t|
    decreases |t|
  {
    hide Hit;
    HitFits(t, p);
    assert t[0..] == t;
    if t != [] && !Hit(t, p) {
      RemoveAllExact(t[1..], p);
      assert forall k :: 1 <= k <= |t| ==> t[k..] == t[1..][k - 1..];
      assert NoHit(t, p) <==> NoHit(t[1..], p) by {
        assert forall k :: 0 <= k <= |t[1..]| ==> t[1..][k..] == t[k + 1..];
      }
    }
  }

  lemma HookGone(h: Text, p: Text)
    requires p != [] && Hit(h, p) && forall i :: |p| <= i < |h| ==> !Stop(h[i])
    ensures RemoveAll(h, p) == []
  {
    assert AfterHit(h, p) == [];
  }

  lemma HookStays(h: Text, p: Text)
    requires p != [] && p[0] == SPACE && !Hit(h, p) && forall i :: 1 <= i < |h| ==> !Stop(h[i])
    ensures RemoveAll(h, p) == h
  {
    assert h[0..] == h;
    assert forall k :: 1 <= k < |h| ==> h[k..][0] == h[k];
    assert NoHit(h, p);
    RemoveAllExact(h, p);
  }

  lemma Hooks()
    ensures forall i :: 1 <= i < |RUN_HOOK| ==> !Stop(RUN_HOOK[i])
    ensures forall i :: 1 <= i < |ACTION_HOOK| ==> !Stop(ACTION_HOOK[i])
    ensures forall i :: 1 <= i < |UNIT_HOOK| ==> !Stop(UNIT_HOOK[i])
    ensures NewSetting(RUN_HOOK) && NewSetting(ACTION_HOOK) && NewSetting(UNIT_HOOK)
    ensures Hit(RUN_HOOK, RUN_PATTERN) && Hit(ACTION_HOOK, ACTION_PATTERN) && Hit(UNIT_HOOK, UNIT_PATTERN)
    ensures !Hit(ACTION_HOOK, RUN_PATTERN) && !Hit(UNIT_HOOK, RUN_PATTERN) && !Hit(UNIT_HOOK, ACTION_PATTERN)
  {
    RunHook();
    assert forall i :: 0 <= i < |ACTION_HOOK| ==> ACTION_HOOK[i] == " systemd.run_success_action=reboot"[i] as int;
    assert forall i :: 0 <= i < |UNIT_HOOK| ==> UNIT_HOOK[i] == " systemd.unit=kernel-command-line.target"[i] as int;
    assert RUN_PATTERN[12] == 61 && ACTION_HOOK[12] == 95;
    assert RUN_PATTERN[9] == 114 && ACTION_PATTERN[9] == 114 && UNIT_HOOK[9] == 117;
  }

  lemma RunHook()
    ensures RUN_HOOK[0] == SPACE && RUN_HOOK[1] == 115
    ensures forall i :: 1 <= i < |RUN_HOOK| ==> !Stop(RUN_HOOK[i])
    ensures Hit(RUN_HOOK, RUN_PATTERN)
  {
    RunWord();
    var tail := Lit("/boot/firmware/firstrun.sh");
    assert RUN_HOOK == [SPACE] + RUN + tail;
    assert forall i :: 0 <= i < |tail| ==> tail[i] == "/boot/firmware/firstrun.sh"[i] as int;
    assert forall i :: 0 <= i < 12 ==> RUN[i] == "systemd.run="[i] as int;
    assert forall i :: 0 <= i < 13 ==> RUN_PATTERN[i] == " systemd.run="[i] as int;
  }

  /** One substitution takes its own hook out of a freshly armed line and leaves the others. */
  lemma {:induction false} HooksRemoved()
    ensures RemoveAll(RUN_HOOK + (ACTION_HOOK + UNIT_HOOK), RUN_PATTERN) == ACTION_HOOK + UNIT_HOOK
    ensures RemoveAll(ACTION_HOOK + UNIT_HOOK, ACTION_PATTERN) == UNIT_HOOK
    ensures RemoveAll(UNIT_HOOK, UNIT_PATTERN) == []
  {
    hide RemoveAll, Hit, RUN_HOOK, ACTION_HOOK, UNIT_HOOK, RUN_PATTERN, ACTION_PATTERN, UNIT_PATTERN;
    Hooks();
    PatternShape(RUN_PATTERN);
    PatternShape(ACTION_PATTERN);
    PatternShape(UNIT_PATTERN);
    HookGone(RUN_HOOK, RUN_PATTERN);
    HookStays(ACTION_HOOK, RUN_PATTERN);
    HookStays(UNIT_HOOK, RUN_PATTERN);
    SettingIsFresh(UNIT_HOOK, RUN_PATTERN);
    RemoveConcat(ACTION_HOOK, UNIT_HOOK, RUN_PATTERN);
    SettingIsFresh(ACTION_HOOK + UNIT_HOOK, RUN_PATTERN);
    RemoveConcat(RUN_HOOK, ACTION_HOOK + UNIT_HOOK, RUN_PATTERN);
    HookGone(ACTION_HOOK, ACTION_PATTERN);
    HookStays(UNIT_HOOK, ACTION_PATTERN);
    SettingIsFresh(UNIT_HOOK, ACTION_PATTERN);
    RemoveConcat(ACTION_HOOK, UNIT_HOOK, ACTION_PATTERN);
    HookGone(UNIT_HOOK, UNIT_PATTERN);
  }

  /** Disarming undoes arming: whatever the line was, the appended hook leaves no trace. */
  lemma {:induction false} DisarmUndoes(text: Text)
    ensures Disarm(text + APPEND) == Disarm(text)
  {
    hide RemoveAll, RUN_HOOK, ACTION_HOOK, UNIT_HOOK, RUN_PATTERN, ACTION_PATTERN, UNIT_PATTERN, Hit;
    PatternShape(RUN_PATTERN);
    PatternShape(ACTION_PATTERN);
    Hooks();
    HooksRemoved();
    var au := ACTION_HOOK + UNIT_HOOK;
    assert APPEND == RUN_HOOK + au;
    assert NewSetting(RUN_HOOK + au) && NewSetting(au);
    SettingIsFresh(RUN_HOOK + au, RUN_PATTERN);
    SettingIsFresh(au, ACTION_PATTERN);
    SettingIsFresh(UNIT_HOOK, UNIT_PATTERN);
    RemoveConcat(text, RUN_HOOK + au, RUN_PATTERN);
    var once := RemoveAll(text, RUN_PATTERN);
    RemoveConcat(once, au, ACTION_PATTERN);
    var twice := RemoveAll(once, ACTION_PATTERN);
    RemoveConcat(twice, UNIT_HOOK, UNIT_PATTERN);
  }

  /** The line has no parameter of its own that the disarm step would take for the hook. */
  predicate HookFree(text: Text) {
    NoHit(text, RUN_PATTERN) && NoHit(text, ACTION_PATTERN) && NoHit(text, UNIT_PATTERN)
  }

  /** Arming and disarming gives a line back exactly when it has no hook-like parameter. */
  lemma {:induction false} DisarmExact(text: Text)
    ensures Disarm(text + APPEND) == text <==> HookFree(text)
  {
    hide RemoveAll, NoHit;
    PatternShape(RUN_PATTERN);
    PatternShape(ACTION_PATTERN);
    DisarmUndoes(text);
    RemoveAllExact(text, RUN_PATTERN);
    var once := RemoveAll(text, RUN_PATTERN);
    RemoveAllExact(once, ACTION_PATTERN);
    var twice := RemoveAll(once, ACTION_PATTERN);
    RemoveAllExact(twice, UNIT_PATTERN);
    assert |Disarm(text)| <= |twice| <= |once| <= |text|;
  }

  // ------------------------------------------------------------ the next boot is a normal one

  predicate StartsStopped(t: Text) {
    t == [] || Stop(t[0])
  }

  lemma {:induction false} StopStays(t: Text, p: Text)
    requires p != [] && StartsStopped(t)
    ensures StartsStopped(RemoveAll(t, p))
    decreases |t|
  {
    hide Hit;
    if t != [] && Hit(t, p) {
      StopStays(AfterHit(t, p), p);
    }
  }

  /** A word the substitution leaves at the front stood there before. */
  lemma {:induction false} FrontStays(t: Text, p: Text, w: Text)
    requires p != [] && Spaceless(w) && w <= RemoveAll(t, p)
    ensures w <= t
    decreases |t|
  {
    hide Hit;
    if w != [] && t != [] {
      assert w[0] == RemoveAll(t, p)[0] && !Stop(w[0]);
      if Hit(t, p) {
        StopStays(AfterHit(t, p), p);
      } else {
        assert RemoveAll(t, p)[1..] == RemoveAll(t[1..], p);
        FrontStays(t[1..], p, w[1..]);
      }
    }
  }

  lemma AtStart(t: Text, w: Text)
    ensures At(t, w, 0) <==> w <= t
  {
  }

  lemma AtLater(t: Text, w: Text, k: nat, m: nat)
    requires m <= |t| && m <= k
    ensures At(t, w, k) <==> At(t[m..], w, k - m)
  {
    if k + |w| <= |t| {
      SliceOfSlice(t, m, |t|, k - m, k - m + |w|);
      assert t[m..] == t[m..|t|];
    }
  }

  /** A substitution never brings a word together that was not there. */
  lemma {:induction false} RemoveMakesNoWord(t: Text, p: Text, w: Text)
    requires p != [] && w != [] && Spaceless(w) && Find(t, w).None?
    ensures Find(RemoveAll(t, p), w).None?
    decreases |t|
  {
    hide Hit, At, Find;
    if t != [] && Hit(t, p) {
      var rest := AfterHit(t, p);
      forall k: nat
        ensures !At(rest, w, k)
      {
        AtLater(t, w, k + |t| - |rest|, |t| - |rest|);
      }
      RemoveMakesNoWord(rest, p, w);
    } else if t != [] {
      var rest := RemoveAll(t[1..], p);
      forall k: nat
        ensures !At(t[1..], w, k)
      {
        AtLater(t, w, k + 1, 1);
      }
      RemoveMakesNoWord(t[1..], p, w);
      forall k: nat
        ensures !At(RemoveAll(t, p), w, k)
      {
        if k > 0 {
          assert RemoveAll(t, p)[1..] == rest;
          AtLater(RemoveAll(t, p), w, k, 1);
        } else {
          AtStart(RemoveAll(t, p), w);
          AtStart(t, w);
          if w <= RemoveAll(t, p) {
            FrontStays(t, p, w);
          }
        }
      }
    }
  }

  /** A card that was not armed before provisioning is not armed after the disarm step. */
  lemma {:induction false} DisarmUnarms(text: Text)
    requires !Armed(text)
    ensures !Armed(Disarm(text + APPEND))
  {
    hide RemoveAll, Find;
    DisarmUndoes(text);
    RunWord();
    PatternShape(RUN_PATTERN);
    PatternShape(ACTION_PATTERN);
    RemoveMakesNoWord(text, RUN_PATTERN, RUN);
    var once := RemoveAll(text, RUN_PATTERN);
    RemoveMakesNoWord(once, ACTION_PATTERN, RUN);
    RemoveMakesNoWord(RemoveAll(once, ACTION_PATTERN), UNIT_PATTERN, RUN);
  }
}
