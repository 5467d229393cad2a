/** Preparing a Raspberry Pi card (apps/flasher/src/sambuca_flasher/pi.py): everything is
    laid down first, and the kernel command line is armed last. */
module Provision {
  import opened Texts
  import opened TextSearch

  /** The files of the boot partition that are written to; payload files live under `sambuca/`. */
  datatype Path = Cmdline | FirstRun | SshMarker | WifiNote | Payload(name: Text)

  type Files = map<Path, Text>

  datatype PayloadFile = PayloadFile(name: Text, content: Text)

  /** What the caller asks for. The script is what `render_firstrun` returned; a payload
      directory that is absent is `None`; an empty text is an option left out. */
  datatype Settings = Settings(
    payload: Option<seq<PayloadFile>>,
    script: Text,
    enableSsh: bool,
    authorizedKey: Text,
    tailscaleKey: Text,
    wifiSsid: Text,
    wifiCountry: Text)

  /** What becomes of one write: done, an error raised, or the program cut off. A broken
      write leaves the file alone or leaves only its first characters. */
  datatype Fate = Written | Failed(kept: Option<nat>) | Killed(kept: Option<nat>)

  /** A run writes each path at most once. */
  type Luck = Path -> Fate

  datatype Fault = NotMounted | NotABootPartition | Broken

  datatype Action =
    | CopiedPayload(files: nat)
    | WroteScript
    | EnabledSsh
    | AuthorisedKey
    | WillJoinTailnet
    | NoKeyWarning
    | NotedWifi(ssid: Text)
    | AlreadyArmed
    | ArmedCmdline

  const RUN: Text := Lit("systemd.run=")
  const RUN_HOOK: Text := Lit(" ") + RUN + Lit("/boot/firmware/firstrun.sh")
  const ACTION_HOOK: Text := Lit(" systemd.run_success_action=reboot")
  const UNIT_HOOK: Text := Lit(" systemd.unit=kernel-command-line.target")
  const APPEND: Text := RUN_HOOK + ACTION_HOOK + UNIT_HOOK

  /** The kernel is told to run something at the next boot. */
  predicate Armed(cmdline: Text) {
    Find(cmdline, RUN).Some?
  }

  function Read(files: Files, p: Path): Option<Text> {
    if p in files then Some(files[p]) else None
  }

  // ------------------------------------------------------------ one run

  function Cut(content: Text, n: nat): Text {
    if n < |content| then content[..n] else content
  }

  function Write(files: Files, p: Path, content: Text, fate: Fate): Files {
    match fate
    case Written => files[p := content]
    case Failed(Some(n)) => files[p := Cut(content, n)]
    case Killed(Some(n)) => files[p := Cut(content, n)]
    case _ => files
  }

  datatype Copying = Complete | Incomplete | Stopped

  function Next(c: Copying, fate: Fate): Copying {
    match fate
    case Written => c
    case Failed(_) => Incomplete
    case Killed(_) => Stopped
  }

  /** `copytree`: an error on one file does not keep the rest from being copied. */
  function Copy(files: Files, payload: seq<PayloadFile>, luck: Luck): (r: (Files, Copying))
    ensures forall p: Path :: !p.Payload? ==> Read(r.0, p) == Read(files, p)
    decreases |payload|
  {
    if payload == [] then (files, Complete)
    else
      var r := Copy(files, payload[..|payload| - 1], luck);
      var last := payload[|payload| - 1];
      if r.1 == Stopped then r
      else (Write(r.0, Payload(last.name), last.content, luck(Payload(last.name))), Next(r.1, luck(Payload(last.name))))
  }

  function PayloadOf(s: Settings): seq<PayloadFile> {
    if s.payload.Some? then s.payload.value else []
  }

  function WifiText(ssid: Text, country: Text): Text {
    Lit("# Finish this on the Pi:\n#   sudo ") + Lit("nmcli device wifi connect '") + ssid + Lit("' --ask") +
    Lit("\nssid=") + ssid + Lit("\ncountry=") + country + Lit("\n")
  }

  function Marker(s: Settings): seq<(Path, Text)> {
    if s.enableSsh then [(SshMarker, [])] else []
  }

  function Note(s: Settings): seq<(Path, Text)> {
    if s.wifiSsid != [] then [(WifiNote, WifiText(s.wifiSsid, s.wifiCountry))] else []
  }

  /** The files written between the payload and the command line, in order. */
  function Inert(s: Settings): seq<(Path, Text)> {
    [(FirstRun, s.script)] + Marker(s) + Note(s)
  }

  /** Writes one after another, up to the first that breaks. */
  function Lay(files: Files, writes: seq<(Path, Text)>, luck: Luck): (r: (Files, bool))
    ensures forall p :: (forall i :: 0 <= i < |writes| ==> writes[i].0 != p) ==> Read(r.0, p) == Read(files, p)
    decreases |writes|
  {
    if writes == [] then (files, true)
    else
      var done := Write(files, writes[0].0, writes[0].1, luck(writes[0].0));
      if luck(writes[0].0) != Written then (done, false)
      else
        assert writes == [writes[0]] + writes[1..];
        Lay(done, writes[1..], luck)
  }

  function PayloadCount(files: Files): nat {
    |set p | p in files && p.Payload?|
  }

  function SshActions(s: Settings): seq<Action> {
    if !s.enableSsh then []
    else
      [EnabledSsh] +
      (if s.authorizedKey != [] then [AuthorisedKey] else []) +
      [if s.tailscaleKey != [] then WillJoinTailnet else NoKeyWarning]
  }

  function InertActions(s: Settings): seq<Action> {
    [WroteScript] + SshActions(s) + (if s.wifiSsid != [] then [NotedWifi(s.wifiSsid)] else [])
  }

  function Report(s: Settings, count: nat, last: Action): seq<Action> {
    (if s.payload.Some? then [CopiedPayload(count)] else []) + InertActions(s) + [last]
  }

  /** The command line once the run has come to its last step. */
  function Final(cmdline: Text): Text {
    if Armed(Strip(cmdline)) then cmdline else Strip(cmdline) + APPEND
  }

  /** Everything but the command line, and whether it all went well. */
  function Laid(files: Files, s: Settings, luck: Luck): (Files, bool) {
    var copied := Copy(files, PayloadOf(s), luck);
    if copied.1 != Complete then (copied.0, false) else Lay(copied.0, Inert(s), luck)
  }

  /** A whole run: the files it leaves and what it reports. */
  function Run(mounted: bool, files: Files, s: Settings, luck: Luck): (Files, Result<seq<Action>, Fault>) {
    if !mounted then (files, Err(NotMounted))
    else if Cmdline !in files then (files, Err(NotABootPartition))
    else
      var laid := Laid(files, s, luck);
      var count := PayloadCount(Copy(files, PayloadOf(s), luck).0);
      var text := Strip(files[Cmdline]);
      if !laid.1 then (laid.0, Err(Broken))
      else if Armed(text) then (laid.0, Ok(Report(s, count, AlreadyArmed)))
      else
        (Write(laid.0, Cmdline, text + APPEND, luck(Cmdline)),
         if luck(Cmdline) == Written then Ok(Report(s, count, ArmedCmdline)) else Err(Broken))
  }

  class BootPartition {
    var mounted: bool
    var files: Files

    constructor (mounted: bool, files: Files)
      ensures this.mounted == mounted && this.files == files
    {
      this.mounted := mounted;
      this.files := files;
    }

    method Put(p: Path, content: Text, fate: Fate) returns (ok: bool)
      modifies this`files
      ensures files == Write(old(files), p, content, fate)
      ensures ok <==> fate == Written
    {
      ok := fate == Written;
      if ok {
        files := files[p := content];
      } else if fate.kept.Some? {
        files := files[p := Cut(content, fate.kept.value)];
      }
    }

    method CopyTree(payload: seq<PayloadFile>, luck: Luck) returns (c: Copying)
      modifies this`files
      ensures (files, c) == Copy(old(files), payload, luck)
    {
      c := Complete;
      for i := 0 to |payload|
        invariant (files, c) == Copy(old(files), payload[..i], luck)
        invariant c != Stopped
      {
        assert payload[..i + 1][..i] == payload[..i];
        var p := Payload(payload[i].name);
        var ok := Put(p, payload[i].content, luck(p));
        c := Next(c, luck(p));
        if c == Stopped {
          CopyStops(old(files), payload, i + 1, luck);
          return;
        }
      }
      assert payload[..|payload|] == payload;
    }

    /** The script, the ssh marker and the wifi note. */
    method LayInert(s: Settings, luck: Luck) returns (actions: seq<Action>, ok: bool)
      modifies this`files
      ensures (files, ok) == Lay(old(files), Inert(s), luck)
      ensures ok ==> actions == InertActions(s)
    {
      hide Write, WifiText;
      actions := [];
      LayStep(files, Inert(s), luck);
      ok := Put(FirstRun, s.script, luck(FirstRun));
      if !ok {
        return;
      }
      actions := actions + [WroteScript];
      assert Inert(s)[1..] == Marker(s) + Note(s);
      if s.enableSsh {
        LayStep(files, Marker(s) + Note(s), luck);
        ok := Put(SshMarker, [], luck(SshMarker));
        if !ok {
          return;
        }
        actions := actions + [EnabledSsh];
        if s.authorizedKey != [] {
          actions := actions + [AuthorisedKey];
        }
        actions := actions + [if s.tailscaleKey != [] then WillJoinTailnet else NoKeyWarning];
        assert (Marker(s) + Note(s))[1..] == Note(s);
      } else {
        assert Marker(s) + Note(s) == Note(s);
      }
      LayEnd(files, luck);
      if s.wifiSsid != [] {
        LayStep(files, Note(s), luck);
        ok := Put(WifiNote, WifiText(s.wifiSsid, s.wifiCountry), luck(WifiNote));
        LayEnd(files, luck);
        actions := actions + [NotedWifi(s.wifiSsid)];
      }
    }

    /** `provision_boot_partition` */
    method Provision(s: Settings, luck: Luck) returns (r: Result<seq<Action>, Fault>)
      modifies this`files
      ensures (files, r) == Run(mounted, old(files), s, luck)
    {
      hide Copy, Lay, Inert, InertActions, Armed, Strip, Write, APPEND, PayloadCount;
      if !mounted {
        return Err(NotMounted);
      }
      if Cmdline !in files {
        return Err(NotABootPartition);
      }
      var actions: seq<Action> := [];
      if s.payload.Some? {
        var c := CopyTree(s.payload.value, luck);
        if c != Complete {
          return Err(Broken);
        }
        actions := actions + [CopiedPayload(PayloadCount(files))];
      } else {
        CopyNothing(files, luck);
      }
      ghost var count := PayloadCount(files);
      var laid, ok := LayInert(s, luck);
      if !ok {
        return Err(Broken);
      }
      actions := actions + laid;
      assert (files, true) == Laid(old(files), s, luck);
      LaidKeepsCmdline(old(files), s, luck);
      assert Read(files, Cmdline) == Read(old(files), Cmdline);
      var text := Strip(files[Cmdline]);
      if Armed(text) {
        actions := actions + [AlreadyArmed];
        assert actions == Report(s, count, AlreadyArmed);
      } else {
        ok := Put(Cmdline, text + APPEND, luck(Cmdline));
        if !ok {
          return Err(Broken);
        }
        actions := actions + [ArmedCmdline];
        assert actions == Report(s, count, ArmedCmdline);
      }
      r := Ok(actions);
    }
  }

  lemma LaidKeepsCmdline(files: Files, s: Settings, luck: Luck)
    ensures Read(Laid(files, s, luck).0, Cmdline) == Read(files, Cmdline)
  {
    hide Copy, Lay, Read, Inert;
    InertAvoidsCmdline(s);
  }

  lemma InertAvoidsCmdline(s: Settings)
    ensures forall i :: 0 <= i < |Inert(s)| ==> Inert(s)[i].0 != Cmdline
  {
    hide WifiText;
  }

  lemma CopyNothing(files: Files, luck: Luck)
    ensures Copy(files, [], luck) == (files, Complete)
  {
  }

  lemma LayEnd(files: Files, luck: Luck)
    ensures Lay(files, [], luck) == (files, true)
  {
  }

  lemma LayStep(files: Files, writes: seq<(Path, Text)>, luck: Luck)
    requires writes != []
    ensures Lay(files, writes, luck) ==
      (var done := Write(files, writes[0].0, writes[0].1, luck(writes[0].0));
       if luck(writes[0].0) == Written then Lay(done, writes[1..], luck) else (done, false))
  {
  }

  lemma {:induction false} CopyStops(files: Files, payload: seq<PayloadFile>, n: nat, luck: Luck)
    requires n <= |payload| && Copy(files, payload[..n], luck).1 == Stopped
    ensures Copy(files, payload, luck) == Copy(files, payload[..n], luck)
    decreases |payload|
  {
    if n == |payload| {
      assert payload[..n] == payload;
    } else {
      assert payload[..|payload| - 1][..n] == payload[..n];
      CopyStops(files, payload[..|payload| - 1], n, luck);
    }
  }
}
