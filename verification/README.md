# Sambuca, modelled and proved

Sambuca is an appliance that a person installs once and then talks to. Most of it drives
other programs; a few parts carry their own logic and make strong promises about it. This
project models those parts in Dafny and proves what they promise, for every input, every run
and every place a run can break. `dafny verify dfyconfig.toml` checks all of it.

**The Steward** turns a language model's reply into at most one operation and keeps a log.
- `Scanner`, `ScannerGrammar`, `StewardParse`: the brace, string and escape scanner, against
  the JSON grammar; replies of prose and objects; the decision between no, one and many
  proposals.
- `Json`, `JsonNumber`, `JsonText`, `JsonOrder`, `JsonRoundTrip`, `JsonCanonical`,
  `JsonTidy`, `JsonParsed`, `JsonPlain`: values, the printer (ASCII escapes, sorted keys), the
  parser, and what one undoes of the other.
- `StewardGate`, `GateLaws`, `GateTells`, `StewardLint`, `LintTells`, `LintedGate`, `LintGaps`,
  `GateExit`: the typed gate and what it says, the catalogue linter and what its silence says,
  what a clean catalogue guarantees at the gate, what it does not, and the exit codes.
- `AuditLines`, `StewardAudit`, `AuditChain`, `AuditRuns`, `AuditTorn`, `AuditRace`: the
  hash-chained log as a text file; tampering, runs, writes cut short, and calls that overlap.
- `StewardPipeline`, `PipelineTells`: the parts together, from the words of a reply to the plan
  and to the words of the log, with JSON text between the processes.

**The flasher** prepares the card and the keys.
- `Download`, `DownloadRuns`: the resumable verified download against any server.
- `Provision`, `CmdlineHook`, `ProvisionLaws`, `ProvisionGaps`: the boot partition, armed last,
  with any write breaking half-way, and the substitutions that disarm it again.
- `Hkdf`, `RecoveryKey`, `Utf8`, `VaultAnswers`, `Vault`, `VaultLaws`: the derivation, the
  printed recovery key, and the answer vault.
- `WordWrap`: the greedy wrap of the boot guide.

**Tools**: `ImageRefs`, `TextSearch`, `ImagePins`, `PinLines`, `PinRuns`, `PinFiles` (image
references, the `--pin` rewrite, and two runs of it),
`Substitution`, `SubstitutionLaws` (filling the image graph). `Texts` and `Bytes` hold what all
share; `StewardPlan` is the record that gate and log exchange.

Where the source loops, updates fields or writes files, the model is a method or a class proved
equal to a specification function; the laws are lemmas about that function.

Assumptions are stated where they are used, never globally. A hash is any function: the
tamper theorems name the collision that would refute them. HMAC, scrypt and AES-GCM are
functions too: the vault theorems name the collision or forgery on the inputs at hand.

## What does not hold as documented

The code is modelled as it is; the members named say exactly when the promise is kept.

- The reply limit is called bytes in its message and counts characters
  (`StewardParse.LimitCountsCharacters`, `StewardParse.LongReplyAccepted`).
- "Removing or editing an entry breaks every link after it": an edit of the last entry and a
  cut at the end go unseen (`AuditChain.EditExact`, `AuditChain.RemovalExact`).
- A log line cut short by a crash makes the whole log unreadable, for `verify` and for the next
  `record`; a lost line end does so at the next `record` (`AuditTorn.TornExact`,
  `AuditTorn.NextRecordExact`).
- Nothing keeps two `record` calls apart; the chain breaks exactly when one appends between the
  other's read and append (`AuditRace.RaceExact`, `AuditRace.OverlapBreaks`).
- Canonical text does not tell a character from the two surrogates that spell it, and nothing
  else is lost (`JsonTidy.CanonicalExact`, `JsonCanonical.SurrogatesCollide`).
- The linter lets pass: a `max_length` that is null or in quotes, a `duration` without one, a
  `reversible_by` that is null, empty or a number, verbs without a name, and enum `values`
  written as one text, of which the gate then accepts any part (`LintedGate.NoLimitExactly`,
  `LintedGate.ClashesExactly`, `LintedGate.ReversalCanBeLookedUp`, `LintedGate.AllVerbsReachable`,
  `LintedGate.EnumValuesDeclared`; `LintGaps` has a document for each).
- "Every way of failing to read" the catalogue exits with 2: verbs that are there but are no
  list of dictionaries exit with 1, like a refusal (`GateExit.UnreadableExact`), and so does any
  exception from the gate (`GateLaws.RaisesExact`).
- "The partial file is kept": only when the connection raises; a stream that ends early loses it
  (`DownloadRuns.ReceivedKeptExactly`). A part of full length can never be finished against a
  server that honours ranges (`DownloadRuns.CanFinishExactly`, `DownloadRuns.FullPartStuck`).
- `_wrap` puts an empty line first when the first word fills the line
  (`WordWrap.GreedyIsOptimal`).
- "Never pin a moving tag": a reference without a tag means `latest` and is pinned
  (`ImageRefs.UnwrittenTagPinned`, `ImageRefs.PortIsPinned`).
- The rewrite takes the first line that holds the assignment anywhere in it, which may be a
  comment; the reference itself is then left unpinned, and a second run rewrites the file again
  (`PinFiles.PinOneExact`, `PinRuns.SecondRunExact`, `PinFiles.CopyIsPinnedAgain`).
- "Armed-but-incomplete" cannot happen to a card that came unarmed, and can to one that is armed
  already (`ProvisionLaws.ArmLastExact`). A break inside the last write can lose the boot line for
  good (`ProvisionLaws.RetryExact`). "ONE line": a command line of several stays several, and the
  firmware then does not see the hook (`ProvisionLaws.FirmwareSeesHook`). Disarming also takes a
  `systemd.unit=` of the owner's own (`CmdlineHook.DisarmExact`).
- The report of provisioning says that no key was installed even when an authorised key was
  (`ProvisionLaws.WarningExact`).
- A prompt inside a longer string has other placeholders it mentions replaced
  (`SubstitutionLaws.EmbeddedExact`, `SubstitutionLaws.PromptInSentence`).

## Model

| member | source | states |
|---|---|---|
| Scanner.FindCandidates | engine/steward/steward-parse.py:73-103 | the loop over depth, string, escape and start finds, for any text, exactly the objects of the step-by-step specification, in order |
| Scanner.CandidatesStandInText | engine/steward/steward-parse.py:90-103 | every object found stands in the text: disjoint spans in increasing order, each starting at a brace, each reading as exactly that object, which has a `verb` key |
| ScannerGrammar.ValueScan | engine/steward/steward-parse.py:73-103 | over the text of any JSON value (RFC 8259 sections 3 to 7, plus the literals Python adds), read inside an object, the scanner ends where the value ends with depth, string and escape state as before |
| ScannerGrammar.MembersScan | engine/steward/steward-parse.py:73-103 | the same for the members of an object, up to its closing brace, whatever nesting, braces, quotes and escapes its strings hold |
| StewardParse.ObjectScan | engine/steward/steward-parse.py:90-103 | over a whole object the scanner emits that object at its last brace, if it names a verb, and is back at depth 0 outside a string |
| StewardParse.PrintedObject | engine/steward/steward-parse.py:90-103 | every dictionary `json.dumps` prints is such an object |
| StewardParse.Composition | engine/steward/steward-parse.py:73-103 | after a text that leaves the scanner neutral, candidates(a+b) = candidates(a) + candidates(b) |
| StewardParse.NeutralExactly | engine/steward/steward-parse.py:73-103 | that law holds for every continuation exactly when the first text leaves the scanner at depth 0 outside a string |
| StewardParse.ScannerMeetsGrammar | engine/steward/steward-parse.py:58-103 | on prose without candidates interleaved with JSON objects, the candidates are exactly the objects that name a verb, in order |
| StewardParse.Parse | engine/steward/steward-parse.py:106-143 | `parse` as a method, for any reply: refused above 65536 characters, without an object that names a verb, or with several; of exactly one, the verb must be a text that is not blank and the params a dictionary, null or missing, and the proposal is that verb, stripped, with those very params |
| StewardParse.ReplyDecided | engine/steward/steward-parse.py:106-143 | on prose interleaved with JSON objects the answer, proposal or refusal, is that for the length and the objects that have the key `verb`, and depends on nothing else |
| StewardParse.ParsesExactlyOne | engine/steward/steward-parse.py:106-143 | on such a reply a proposal comes out if and only if it is short enough and exactly one object names a verb, with a verb and params of the right shape |
| Utf8.EncodedLength | engine/steward/steward-parse.py:110-113 | the encoding is never shorter than the text, and as long exactly for ASCII |
| StewardParse.LimitCountsCharacters | engine/steward/steward-parse.py:110-113 | the number in the refusal, called bytes, is the length in UTF-8 exactly for an ASCII reply |
| StewardParse.LongReplyAccepted | engine/steward/steward-parse.py:110-113 | a concrete reply that is accepted and is longer than 64 KiB in UTF-8 |
| StewardParse.NoTieBreak | engine/steward/steward-parse.py:122-127 | if both parts of a reply hold a candidate the reply is refused |
| StewardParse.PositionIrrelevant | engine/steward/steward-parse.py:122-127 | swapping two neutral parts of a reply never changes the proposal |
| JsonCanonical.LoadsDumps | engine/steward/steward-audit.py:60-69 | `json.loads` of what `json.dumps` printed, for every value: the value sorted, with escaped surrogate pairs combined |
| JsonCanonical.RoundTripExact | engine/steward/steward-audit.py:60-69 | the round trip returns the value, up to key order, exactly when no string in it has a high surrogate right before a low one |
| JsonCanonical.CanonicalDecidesSame | engine/steward/steward-audit.py:60-69 | on such values two canonical texts are equal exactly when the values are equal up to key order at every depth |
| JsonTidy.CanonicalExact | engine/steward/steward-audit.py:60-69 | any two values share a canonical text exactly when they agree, keys in order, once every high surrogate before a low one is combined with it, in keys too and merging none |
| JsonTidy.PrintDecides | engine/steward/steward-audit.py:60-69 | a printed value, whatever text follows it, decides the value up to such pairs, and where it ends |
| JsonCanonical.OrderInvisible | engine/steward/steward-audit.py:60-69 | key order, at any depth, never shows in the canonical text |
| JsonCanonical.SurrogatesCollide | engine/steward/steward-audit.py:60-69 | without that restriction injectivity fails: a named pair of different values with one canonical text |
| JsonCanonical.DumpsPrintable | engine/steward/steward-audit.py:113-114 | what is printed is printable ASCII: no line break can come from a plan |
| JsonOrder.SortedDecidesSame | engine/steward/steward-audit.py:63-65 | two values are equal up to key order exactly when they are equal after sorting |
| Texts.LessExact | engine/steward/steward-audit.py:63-65 | keys are ordered by code points: at the first difference, or by length |
| JsonParsed.LoadsGood | engine/steward/steward-audit.py:72-80 | whatever JSON text is read, the value has no repeated key, and no combinable surrogates if the text had none |
| AuditLines.AppendOne | engine/steward/steward-audit.py:72-80 | appending a printed line to a log that ends in a line break adds exactly one line and one entry |
| AuditLines.LinesExact | engine/steward/steward-audit.py:76 | `splitlines`: a line ends at each of ten boundaries, a carriage return with its line feed at one, and nowhere else |
| AuditLines.ReadTextClean | engine/steward/steward-audit.py:72-80 | entries read from decoded UTF-8 are well formed and free of combinable surrogates |
| StewardAudit.AuditLog.Read | engine/steward/steward-audit.py:72-80 | the reading loop returns one entry per non-blank line, or fails on the first line that is not JSON |
| StewardAudit.AuditLog.Record | engine/steward/steward-audit.py:83-119 | for any plan dictionary: when the log reads, one line is appended, the canonical text of the entry returned; that has nine fields, each saying what the plan or the caller says (or the default of the source) and the last the digest of the last entry; otherwise nothing changes |
| AuditRuns.RecordTells | engine/steward/steward-audit.py:83-119 | read back after one `record` the log is what it was and one more entry, which says of the plan, field by field, what was written, keys in order and surrogate pairs combined |
| StewardAudit.AuditLog.Verify | engine/steward/steward-audit.py:122-134 | `verify` fails to read exactly when some line is not JSON, and otherwise reports what holds of the chain |
| StewardAudit.Walk | engine/steward/steward-audit.py:122-134 | the loop reports an intact chain only when every entry carries the digest of the one before it and the first carries GENESIS, and otherwise names the first entry that does not |
| StewardAudit.VerdictDecides | engine/steward/steward-audit.py:122-134 | an intact or empty verdict means, and is only given for, an intact chain |
| AuditChain.KeyOrderIrrelevant | engine/steward/steward-audit.py:60-69 | permuting the keys of entries at any depth changes no digest and not the result of `verify` |
| AuditChain.PrefixIntact | engine/steward/steward-audit.py:122-134 | every prefix of an intact log verifies |
| AuditChain.TamperEvidence | engine/steward/steward-audit.py:122-134 | two logs that verify and end in the same entry hold the same entries, or a collision or a GENESIS digest is exhibited among them |
| AuditChain.TamperingVisible | engine/steward/steward-audit.py:122-134 | without such a hash failure, any deletion, insertion, edit or reorder before the last entry makes `verify` fail |
| AuditChain.EditExact | engine/steward/steward-audit.py:32-35 | replacing one entry goes unseen exactly when the new one carries the same link and is the last one, or says the same: the exact reach of "editing an entry breaks every link after it" |
| AuditChain.LinksDiffer | engine/steward/steward-audit.py:60-69 | in an intact log no digest stands at two places, unless the hash fails on its entries |
| AuditChain.RemovalExact | engine/steward/steward-audit.py:32-35 | taking a run of entries out of an intact log goes unseen exactly when they are the last ones: the exact reach of "removing an entry breaks every link after it" |
| AuditChain.TamperEvidenceOnFiles | engine/steward/steward-audit.py:122-134 | tamper evidence stated on the files, for any text decoded from UTF-8 |
| AuditRuns.StoredLinks | engine/steward/steward-audit.py:92-114 | an entry read back carries the link it was written with |
| AuditRuns.StoredExact | engine/steward/steward-audit.py:83-119 | what is read back equals what `record` returned exactly when no text of the plan spells a character with two surrogates |
| AuditRuns.RecordKeepsHealth | engine/steward/steward-audit.py:83-119 | one `record` on a healthy log: earlier bytes stay, one line is added for any params text, reading gives the old entries and the new one, the chain stays intact |
| AuditRuns.RunKeepsHealth | engine/steward/steward-audit.py:83-119 | the same for any sequence of records |
| AuditRuns.FreshRunVerifies | engine/steward/steward-audit.py:122-134 | any run from a log that does not exist yet verifies, with one entry a call |
| AuditTorn.TornExact | engine/steward/steward-audit.py:113-114 | a write cut after n characters leaves the log readable exactly if n is 0 or at most the line end is missing; otherwise `verify` and every later `record` fail |
| AuditTorn.NextRecordExact | engine/steward/steward-audit.py:91-114 | after the next `record` the log is readable exactly if the cut write left nothing or everything |
| AuditTorn.FrontOpen | engine/steward/steward-audit.py:113-114 | no proper part at the front of a printed object is balanced |
| AuditRace.RaceTracks | engine/steward/steward-audit.py:91-114 | under any interleaving of overlapping calls every appended line can be read back and each call links to the entry that was last when it read |
| AuditRace.RaceExact | engine/steward/steward-audit.py:91-114 | overlapping calls leave a log that verifies exactly if no call appended between another's read and append |
| AuditRace.OverlapBreaks | engine/steward/steward-audit.py:91-114 | the failing schedule: two calls that both read before either appends leave a log that does not verify |
| AuditRace.TurnsAreARun | engine/steward/steward-audit.py:91-114 | calls that take turns leave exactly the log that the same calls to `record`, one after another, leave |
| StewardGate.Resolve | engine/steward/steward-resolve.py:140-193 | `resolve` as a method, the params dictionary filled in a loop, decides as its specification for any proposal: the same plan, the same refusal, or the same escape of an exception |
| GateLaws.DurationExact | engine/steward/steward-resolve.py:134-137 | a duration is white space, a whole number above zero, one unit out of s, m, h, d, w, and white space |
| JsonNumber.FractionAbove | engine/steward/steward-resolve.py:115-123 | a fractional limit is exceeded exactly by the lengths above its whole part |
| JsonNumber.ExponentAbove | engine/steward/steward-resolve.py:115-123 | one with an exponent by those above so many times ten, or a part of it |
| GateLaws.CheckExact | engine/steward/steward-resolve.py:95-131 | `_check_value` lets a value pass if and only if it conforms to its declaration: one of a list of values, a part of a text of values or a key of a dictionary of them; or a text no longer than a limit that is a number, whole, boolean or fractional |
| GateLaws.ClashExact | engine/steward/steward-resolve.py:95-131 | checking a value raises instead exactly when it is to be looked for in what it cannot be in, or its length compared with what is no number |
| GateLaws.GateExact | engine/steward/steward-resolve.py:140-193 | a plan comes out if and only if the verb is in the catalogue, its parameters are dictionaries with names, every supplied name is declared, every declared parameter is supplied and conforming or has a default, and the verb is not disruptive without confirmation; the plan holds exactly the declared names with those values unaltered |
| GateTells.PlanTells | engine/steward/steward-resolve.py:174-193 | every field of a plan: the catalogue's own blast_radius and confirm, or disruptive and strong where it has none; its reversible_by or null; returns_secret exactly when it is truthy there; the declared parameters; and a sentence that is the shown summary, followed by every parameter with its value in the order of names |
| GateTells.RefusalTells | engine/steward/steward-resolve.py:140-183 | the reason of every refusal is true of the proposal and the catalogue, and the first that applies |
| GateLaws.RaisesExact | engine/steward/steward-resolve.py:140-193 | an exception escapes from the gate exactly when the proposal is no dictionary, or the parameters of its verb cannot be read, or, with every supplied name declared, the first parameter that does not fit was supplied and clashes with its declaration |
| GateExit.LoadsExactly | engine/steward/steward-resolve.py:89-92 | a catalogue loads exactly if its verbs are a non-empty list of dictionaries whose names, if any, can be keys |
| GateExit.UnreadableExact | engine/steward/steward-resolve.py:72-92 | a catalogue that cannot be loaded exits with 2 exactly when it defines no verbs; otherwise with 1, the code of a refusal |
| GateExit.NamesOnly | engine/steward/steward-resolve.py:72-92 | the failing input: with a list of names for verbs every proposal exits like a refusal |
| GateExit.CleanExits | engine/steward/steward-resolve.py:218-234 | on a clean catalogue the program exits with 0 exactly for accepted proposals and never with 2, and an exception escapes only from the gate itself |
| GateLaws.GatingAgain | engine/steward/steward-resolve.py:140-193 | resolving a plan's own params again gives the same plan exactly when every default used would itself have been accepted; else it is refused |
| GateLaws.SentenceCarriesValues | engine/steward/steward-resolve.py:196-207 | the sentence of any parameters starts with the catalogue's summary and contains every parameter with its real value |
| GateLaws.PlanWellFormed | engine/steward/steward-resolve.py:183-193 | whatever the proposal, the plan is a dictionary the log can carry |
| StewardLint.Lint | tools/steward-lint.py:63-159 | for any document: the linter raises exactly on what it cannot read (lists that are none, entries that are no dictionaries, a container where a word is looked for in a set, a default that cannot be looked for among the values), and otherwise reports exactly the structural rules that are broken, each at its verb or parameter, and nothing exactly on a clean document |
| LintedGate.CleanLoads | engine/steward/steward-resolve.py:72-92 | a clean document loads as a catalogue |
| LintedGate.LastOfAName | engine/steward/steward-resolve.py:92 | of several entries with one name the gate sees the last |
| LintTells.CleanExactly | tools/steward-lint.py:63-159 | the linter is silent exactly on documents of version 1 it can read to the end, whose verbs, parameters and exclusions are sound, each requirement stated positively |
| LintTells.PlanOfClean | tools/steward-lint.py:82-120 | a plan made from a clean catalogue has a blast_radius and a confirm that are written there and among the words allowed; nothing disruptive goes unconfirmed, what only reads asks for nothing, and a secret handed back has notes |
| LintedGate.NeverSelfContradicts | engine/steward/steward-resolve.py:174-182 | on a clean catalogue no proposal is ever refused for self-contradiction |
| LintedGate.ReversalCanBeLookedUp | tools/steward-lint.py:101-108 | on a clean document the `reversible_by` of a plan names a verb the gate can look up exactly when it is a text that is not empty; a plan of a reversible verb comes from an entry that has the key |
| LintGaps.NullLimitGap | tools/steward-lint.py:146-149 | a clean document with a null max_length, and the gate refusing every text for it |
| LintGaps.TextLimitGap | tools/steward-lint.py:146-149 | a clean document with a max_length in quotes, and the gate raising on every text for it |
| LintGaps.TextValuesGap | tools/steward-lint.py:137-144 | a clean document with the values of an enum written as one text, and the gate letting through exactly the parts of that text |
| LintGaps.DurationGap | tools/steward-lint.py:146-149 | a clean document with a duration and no limit, and the gate refusing every text for it |
| LintGaps.NullReversalGap | tools/steward-lint.py:101-108 | a clean document whose reversible verb has a null reversal, and the plan that then names none |
| LintGaps.NoWordReversalGap | tools/steward-lint.py:101-108 | a clean document with a verb whose name is empty, a number or a boolean, a reversal of that name, and the plan that promises what cannot be looked up |
| LintGaps.UnnamedGap | tools/steward-lint.py:75-80 | a clean document with an unnamed verb, which the loader drops: every proposal is refused |
| LintedGate.AllVerbsReachable | engine/steward/steward-resolve.py:88-92 | all verbs of a clean document reach the gate exactly when all of them are named, which is not linted |
| LintedGate.NoLimitExactly | engine/steward/steward-resolve.py:115-120 | on a clean catalogue a text is refused for a missing limit exactly when its max_length is null, or it is a duration without one |
| LintedGate.ClashesExactly | engine/steward/steward-resolve.py:104-122 | on a clean catalogue the gate raises on a value exactly when the limit is written but neither null nor a number, or the enum values are no list and the value cannot be looked for in them |
| LintedGate.EnumValuesDeclared | tools/steward-lint.py:137-144 | on a clean document every enum value of a plan is among the declared values as the gate reads them, even when it came from an unchecked default, and is one of a list of them exactly if they are a list |
| StewardPipeline.Explain | engine/steward/sambuca-steward:54-67 | the two processes with JSON text between them, for any reply, lone surrogates included |
| StewardPipeline.CrossingKeepsDecision | engine/steward/sambuca-steward:62-67 | crossing between them as text changes no refusal and no plan, up to key order inside a value |
| StewardPipeline.ExplainExact | engine/steward/sambuca-steward:54-67 | a reply of prose and JSON objects is explained exactly when it is short enough, one object names a verb, it is well shaped, and the gate accepts it |
| PipelineTells.AskedIsPlanned | engine/steward/sambuca-steward:54-67 | if the one object of a reply asks for a verb with parameters, the plan exists exactly when the catalogue accepts them, and is of that verb with those very parameters, or defaults, and what the catalogue says of it |
| StewardPipeline.PlanCrosses | engine/steward/steward-resolve.py:233 | a plan handed to the log as JSON text arrives with the same verb and the same parameters, keys in order |
| PipelineTells.LogOfCatalogue | engine/steward/steward-audit.py:83-119 | over any run of replies the log, read back, has one entry for each accepted reply, in order, with the verb, the parameters, blast_radius, confirm and secret flag of its plan and the turn's actor, outcome and time; the verb is the catalogue's and the parameters are exactly its declared ones |
| StewardPipeline.EqualSorted | engine/steward/steward-resolve.py:104-109 | Python's `==` on enum values cannot see key order |
| JsonOrder.EqualExact | engine/steward/steward-resolve.py:104-109 | among enum values True is 1 and False is 0, and otherwise a scalar equals only itself |
| StewardPipeline.RepliesLeaveAGoodLog | engine/steward/steward-audit.py:83-134 | whatever a model replies, turn after turn, handing the accepted plans on as JSON text and recording them leaves a log that reads back one entry a plan and verifies |
| Download.Downloads.Fetch | apps/flasher/src/sambuca_flasher/download.py:103-209 | both files, the outcome and the requested range after one call, and every intermediate state of the files, for any server behaviour |
| Download.Downloads.Accept | apps/flasher/src/sambuca_flasher/download.py:156-208 | the response: resume on 206, start over otherwise, verify before the rename |
| Download.Downloads.Receive | apps/flasher/src/sambuca_flasher/download.py:174-180 | the read loop appends the blocks up to the end of the stream |
| DownloadRuns.EveryMomentSafe | apps/flasher/src/sambuca_flasher/download.py:121-209 | at every moment of a call the destination is what it was, or absent, or matches the digest |
| DownloadRuns.RunSafe | apps/flasher/src/sambuca_flasher/download.py:121-209 | over any sequence of calls, killed anywhere or not, against any server: the destination goes at most once from absent to content that matches, and an existing file is never changed |
| DownloadRuns.OutcomeExact | apps/flasher/src/sambuca_flasher/download.py:121-209 | every outcome, exactly when: lack of space exactly if the destination is absent, the size is known, and the free space is below the missing bytes and a twentieth; the others by the existing file, the answer and the digest; what is refused changes nothing |
| DownloadRuns.RangeExact | apps/flasher/src/sambuca_flasher/download.py:142-151 | the byte asked for is the length of the part, or none if that is longer than the whole file |
| DownloadRuns.OversizedHeals | apps/flasher/src/sambuca_flasher/download.py:142-147 | whatever a part longer than the file holds, one honest answer delivers the body |
| DownloadRuns.HonestCall | apps/flasher/src/sambuca_flasher/download.py:142-209 | against an honest server a call that ends delivers exactly the body, having transferred the missing bytes (206) or all of it; a broken one leaves a prefix, no shorter while answers are 206 |
| DownloadRuns.ReceivedKeptExactly | apps/flasher/src/sambuca_flasher/download.py:193-207 | of a transfer that sent nothing wrong, all that was received is on the disk after the call exactly if the connection raised or the body was complete |
| DownloadRuns.DamageHeals | apps/flasher/src/sambuca_flasher/download.py:200-209 | after a digest failure the next call asks for no range, and an honest answer that ends delivers the body |
| DownloadRuns.HonestRunKeeps | apps/flasher/src/sambuca_flasher/download.py:142-209 | over any honest run, broken or killed anywhere, the part stays a prefix of the body and the destination is absent or the body |
| DownloadRuns.HonestRunGrows | apps/flasher/src/sambuca_flasher/download.py:142-209 | over any honest run, broken or killed anywhere, in which ranges are answered with 206, the part never shrinks until it is delivered |
| DownloadRuns.CanFinishExactly | apps/flasher/src/sambuca_flasher/download.py:142-151 | against a server that honours ranges some answer completes the download exactly when the part is not already full length |
| DownloadRuns.FullPartStuck | apps/flasher/src/sambuca_flasher/download.py:189-192 | with a full-length part every further call leaves both files as they are |
| WordWrap.Wrap | apps/flasher/src/sambuca_flasher/bootguide.py:226-236 | `_wrap` as a loop, for any text and width |
| WordWrap.WordsExact | apps/flasher/src/sambuca_flasher/bootguide.py:226-228 | however words are spread over a text with white space between, they are its words, all of them, in order |
| WordWrap.TextIsSpread | apps/flasher/src/sambuca_flasher/bootguide.py:226-228 | and every text is words spread so |
| WordWrap.WrapGroups | apps/flasher/src/sambuca_flasher/bootguide.py:226-236 | the lines are the lines of a grouping of the words |
| WordWrap.WrapKeepsWords | apps/flasher/src/sambuca_flasher/bootguide.py:226-236 | all words come out, in order |
| WordWrap.StaysAhead | apps/flasher/src/sambuca_flasher/bootguide.py:226-236 | started no further right, greedy wrapping never needs more lines than any layout |
| WordWrap.RestIsBest | apps/flasher/src/sambuca_flasher/bootguide.py:226-236 | from the first word on, no line is too wide and no layout has fewer lines |
| WordWrap.GreedyIsOptimal | apps/flasher/src/sambuca_flasher/bootguide.py:226-236 | for words that fit, the result is a layout that none beats exactly when the first word is narrower than the line; when it fills it an empty line comes first |
| Hkdf.HkdfSha256 | apps/flasher/src/sambuca_flasher/keys.py:257-273 | the result is the first `length` octets of T(1)|T(2)|... of RFC 5869 section 2.3, refused exactly above 255 blocks; the counter octet stays in range |
| Hkdf.StreamPrefix | apps/flasher/src/sambuca_flasher/keys.py:268-272 | a stream of fewer blocks starts every longer one |
| Hkdf.ShorterIsPrefix | apps/flasher/src/sambuca_flasher/keys.py:257-273 | the output for a shorter length is a prefix of the output for a longer one |
| Hkdf.OkmSpelt | apps/flasher/src/sambuca_flasher/keys.py:257-273 | the outputs of one and of two blocks, spelt out as in RFC 5869 section 2.3 |
| RecoveryKey.DigitsSameNumber | apps/flasher/src/sambuca_flasher/keys.py:223-224 | the base32 digits write the same forty-bit number as the five octets (RFC 4648 section 6) |
| RecoveryKey.EncodeRoundTrip | apps/flasher/src/sambuca_flasher/keys.py:223-224 | base32 decoding undoes encoding |
| RecoveryKey.PrintedKey | engine/autoinstall/enroll-recovery-key.sh:107-115 | for every twenty octets: eight hyphened groups of four base32 symbols, stripping CR, LF, space and tab changes nothing, and dropping hyphens and decoding gives the octets back |
| RecoveryKey.PrintedInjective | apps/flasher/src/sambuca_flasher/keys.py:223-224 | different octets print differently |
| RecoveryKey.DeriveRecoveryKey | apps/flasher/src/sambuca_flasher/keys.py:214-224 | the printed sheet decodes to the twenty octets RFC 5869 derives from the seed under the key's own salt and info: the first twenty of HMAC(HMAC(salt, seed), info, 1) |
| Utf8.EncodeInjective | apps/flasher/src/sambuca_flasher/vault.py:123-124 | UTF-8 of encodable texts is injective |
| VaultAnswers.Canonical | apps/flasher/src/sambuca_flasher/vault.py:113-125 | the joining loop; fails exactly when a normal form cannot be encoded or is 2^32 octets or more |
| VaultAnswers.FramesExact | apps/flasher/src/sambuca_flasher/vault.py:113-125 | two answer lists join to the same octets exactly when their normal forms are the same list |
| VaultAnswers.FramesRead | apps/flasher/src/sambuca_flasher/vault.py:113-125 | a reader of big-endian lengths gets back the normal forms in UTF-8, one frame each |
| VaultAnswers.SetOfDifferent | apps/flasher/src/sambuca_flasher/vault.py:167-168 | a set as large as the list means no two alike |
| VaultAnswers.CheckAnswers | apps/flasher/src/sambuca_flasher/vault.py:144-175 | approves exactly three answers, none short, no two alike, at least twenty characters together, questions all different; the reason for refusal is true of them |
| Vault.VaultFile.Create | apps/flasher/src/sambuca_flasher/vault.py:178-223 | the file changes only for strong answers; at every moment, wherever the temporary write stops, it is the old one or the whole new one; no temporary file is left |
| Vault.OctetsRoundTrip | apps/flasher/src/sambuca_flasher/vault.py:251-258 | `bytes.fromhex` undoes `hex` |
| VaultLaws.PreparedStored | apps/flasher/src/sambuca_flasher/vault.py:235-258 | from the stored text decryption is asked with what encryption was given, but for the key, derived from the offered answers and the document's own salt and cost |
| VaultLaws.Reopens | apps/flasher/src/sambuca_flasher/vault.py:226-269 | a vault opens, to the payload, for any answers with the same normal form and whatever cost it was made with |
| VaultLaws.OpensOnlyForAnswers | apps/flasher/src/sambuca_flasher/vault.py:256-269 | if it opens for other answers, the key derivation collided or the cipher accepted a forgery on these very inputs |
| VaultLaws.HeaderIsAuthenticated | apps/flasher/src/sambuca_flasher/vault.py:240-258 | any document carrying the ciphertext that opens has the vault's own header, or the cipher accepted a forgery |
| VaultLaws.StoredTells | apps/flasher/src/sambuca_flasher/vault.py:201-212 | the file tells its schema, normalisation, fingerprint, questions, cost and salt as they were when it was made |
| VaultLaws.QuestionsAreTheOwners | apps/flasher/src/sambuca_flasher/vault.py:240-258 | a document that carries the ciphertext and opens has the questions and the fingerprint of the vault, or the cipher accepted a forgery |
| VaultLaws.SchemaExact | apps/flasher/src/sambuca_flasher/vault.py:235-238 | a file is refused for its schema exactly if that is missing or not equal to 1 |
| VaultLaws.WrongExactly | apps/flasher/src/sambuca_flasher/vault.py:256-267 | once a key can be derived, wrong answers are reported exactly if the octets are no hexadecimal or the cipher refuses |
| ImageRefs.PrintThenParse | tools/verify-images.py:64-87 | printing any well-formed host, repository, tag and digest and parsing gives them back, with the defaults the source documents |
| ImageRefs.HostExact | tools/verify-images.py:81-87 | the first segment is a registry exactly if it has a dot or a colon or is localhost; otherwise the image is on Docker Hub |
| ImageRefs.PinKeepsImage | tools/verify-images.py:188-207 | for every string, pinning keeps host and repository, fetches by the digest, and pinning twice is pinning once |
| ImageRefs.WrittenTagExact | tools/verify-images.py:194-202 | a written tag is left unpinned exactly when it is a moving one |
| ImageRefs.UnwrittenTagPinned | tools/verify-images.py:194-202 | an unwritten tag means the moving `latest`, yet such a reference is left unpinned exactly when it reads, as a whole, like a moving tag |
| ImageRefs.PortIsPinned | tools/verify-images.py:194-202 | any registry with a port, and no tag, stands for `latest` and is pinned |
| ImageRefs.LocalRegistryPinned | tools/verify-images.py:194-202 | such a reference by name |
| ImagePins.ReadRefs | tools/verify-images.py:125-134 | the reading loop |
| PinRuns.AssignedExact | tools/verify-images.py:128-133 | a line assigns a reference exactly if it reads, stripped, as a key that ends in `_IMAGE`, an equals sign and a value, and is no comment |
| ImagePins.LastAssignmentWins | tools/verify-images.py:125-134 | each reference is that of the last line assigning its key |
| ImagePins.LinesOfReplaced | tools/verify-images.py:206 | replacing once in the file is replacing once in its first line that holds the text |
| ImagePins.Pin | tools/verify-images.py:150-209 | one run: read, look up, pin |
| PinLines.LookupIsLast | tools/verify-images.py:127-134 | the value read for a key is the one on the last line assigning it |
| PinLines.StepKeepsKeys | tools/verify-images.py:203-207 | a rewrite anywhere in the file leaves every line the key it assigns |
| PinRuns.OwnRewritten | tools/verify-images.py:190-207 | while every rewrite falls on the line its reference was read from, each such line is rewritten once, in its turn |
| PinRuns.SomeoneMissed | tools/verify-images.py:190-207 | if one rewrite falls elsewhere, some reference to be pinned is left as it was |
| PinRuns.PinnedAreRead | tools/verify-images.py:125-134 | if every rewrite fell on its own line, the rewritten file reads as the same keys in the same order, pinned |
| PinRuns.RepinnedExact | tools/verify-images.py:190-207 | what a reference becomes: its name, tag and all, at the digest answered, if that is a SHA-256 digest and the tag is not one of the five moving ones; otherwise it stays |
| PinRuns.CountExact | tools/verify-images.py:205-210 | the number printed is that of the references to be pinned, when every rewrite falls on its own line |
| PinRuns.CountsNothing | tools/verify-images.py:190-210 | a run pins nothing exactly when no reference it reads is to be pinned |
| PinRuns.SecondRunExact | tools/verify-images.py:150-209 | a second run, over the references read from the rewritten file, rewrites nothing exactly if in the first every rewrite fell on the line its reference was read from |
| PinFiles.SecondRunOnFile | tools/verify-images.py:150-209 | for references not pinned yet: exactly if no assignment to be pinned stands anywhere before the line it is read from |
| PinFiles.PinOneExact | tools/verify-images.py:203-207 | pinning one reference rewrites the line it was read from, spaces around it kept, and only that, exactly when no earlier line holds the assignment anywhere in it |
| PinFiles.CopyIsPinnedAgain | tools/verify-images.py:150-209 | the failing input: a commented copy above the assignment, rewritten by the first run and again by the second |
| ImagePins.PinReferences | tools/verify-images.py:188-209 | the `--pin` loop and what it counts |
| Provision.BootPartition.CopyTree | apps/flasher/src/sambuca_flasher/pi.py:506-516 | the payload copy, in which one file's error does not stop the rest |
| Provision.BootPartition.LayInert | apps/flasher/src/sambuca_flasher/pi.py:518-556 | script, ssh marker and wifi note, in that order, up to the first write that breaks |
| Provision.BootPartition.Provision | apps/flasher/src/sambuca_flasher/pi.py:464-575 | the files and the report after a run in which any write may break, half done or not at all |
| ProvisionLaws.ArmLast | apps/flasher/src/sambuca_flasher/pi.py:503-575 | from an unarmed card, whatever breaks wherever, even within the last write: armed implies that the whole script, the ssh marker, a note with the network and country, and every payload file that was asked for are on the card |
| ProvisionLaws.ArmLastExact | apps/flasher/src/sambuca_flasher/pi.py:503-575 | that holds for every way of breaking exactly when the card came unarmed |
| ProvisionLaws.SuccessMeansDone | apps/flasher/src/sambuca_flasher/pi.py:464-575 | a run that reports success put everything in place and the hook in the file |
| ProvisionLaws.FirmwareSeesHook | apps/flasher/src/sambuca_flasher/pi.py:566-572 | the hook stands on the one line the firmware reads exactly if the stripped command line was one line |
| ProvisionGaps.HookOnSecondLine | apps/flasher/src/sambuca_flasher/pi.py:566-572 | the failing input: a card with a command line of two lines |
| ProvisionLaws.RunTouches | apps/flasher/src/sambuca_flasher/pi.py:464-575 | no run touches any other file |
| ProvisionLaws.SecondRunChangesNothing | apps/flasher/src/sambuca_flasher/pi.py:568-570 | a second full run changes no file, the command line included |
| ProvisionLaws.RetryExact | apps/flasher/src/sambuca_flasher/pi.py:559-575 | repeating a broken run makes the very card an unbroken one would exactly if the break did not fall inside the write of the command line, save right before or after the hook's first space |
| ProvisionGaps.LineLostForGood | apps/flasher/src/sambuca_flasher/pi.py:559-575 | the failing input: a card whose last write keeps nothing, and a retry that succeeds with another result |
| ProvisionLaws.WarningExact | apps/flasher/src/sambuca_flasher/pi.py:529-542 | the warning appears exactly when ssh is on without a tailnet key, and contradicts the rest of the report exactly when an authorised key was installed too |
| ProvisionLaws.ReportTells | apps/flasher/src/sambuca_flasher/pi.py:490-575 | a report of success says exactly what was done: how many files are in the payload directory, the switches asked for, and last whether this run armed the card |
| CmdlineHook.ArmedCut | apps/flasher/src/sambuca_flasher/pi.py:570-574 | a cut arming write arms the line exactly when it comes after the whole of `systemd.run=` |
| CmdlineHook.FinalSettles | apps/flasher/src/sambuca_flasher/pi.py:569-574 | arming an armed line changes nothing |
| CmdlineHook.CutHeals | apps/flasher/src/sambuca_flasher/pi.py:569-574 | provisioning again after a cut write gives the clean line exactly for the cuts named |
| CmdlineHook.RemoveConcat | apps/flasher/src/sambuca_flasher/pi.py:436 | each substitution works parameter by parameter |
| CmdlineHook.DisarmUndoes | apps/flasher/src/sambuca_flasher/pi.py:432-438 | disarming leaves no trace of the appended hook, whatever the line was |
| CmdlineHook.DisarmExact | apps/flasher/src/sambuca_flasher/pi.py:432-438 | arming and disarming gives the line back exactly when it has no hook-like parameter of its own |
| ProvisionGaps.OwnUnitLost | apps/flasher/src/sambuca_flasher/pi.py:432-438 | the failing input: any line with a `systemd.unit=` parameter of its own |
| CmdlineHook.DisarmUnarms | apps/flasher/src/sambuca_flasher/pi.py:432-438 | a card that was not armed before is not armed afterwards: the next boot is a normal one |
| ProvisionLaws.FirstBoot | apps/flasher/src/sambuca_flasher/pi.py:432-438 | provisioning and first boot together: armed in between, unarmed after, and the old line exactly under that condition |
| Substitution.FillLeaf | engine/image/sambuca-image.py:107-113 | one string: a whole placeholder becomes its typed value, else the sequential replacements |
| Substitution.Walk | engine/image/sambuca-image.py:102-116 | the walk over the tree |
| Substitution.BuildGraph | engine/image/sambuca-image.py:119-146 | a graph comes out exactly for a prompt that is not blank and at most 2000 characters, sizes 256 to 1536 in multiples of 16, and 1 to 8 steps; the error is true of the request |
| SubstitutionLaws.FillEverywhere | engine/image/sambuca-image.py:102-116 | a place exists in the filled graph exactly if it exists in the workflow, and holds the filled node |
| SubstitutionLaws.FillKeepsShape | engine/image/sambuca-image.py:102-116 | same keys, list lengths and non-string leaves for every scalar value map |
| SubstitutionLaws.PromptVerbatim | engine/image/sambuca-image.py:107-109 | a leaf that is exactly the placeholder becomes the prompt, whatever it contains |
| SubstitutionLaws.NumberTyped | engine/image/sambuca-image.py:107-109 | a leaf that is `%WIDTH%`, `%HEIGHT%`, `%STEPS%` or `%SEED%` becomes that number of the request |
| SubstitutionLaws.NumberInSentence | engine/image/sambuca-image.py:110-113 | inside a sentence it is written in digits |
| SubstitutionLaws.ReplacedEverywhere | engine/image/sambuca-image.py:110-113 | a placeholder is replaced wherever it stands in a string, and nothing else is touched |
| SubstitutionLaws.OtherLeavesUnchanged | engine/image/sambuca-image.py:107-113 | with placeholders only as whole leaves every other leaf is unchanged |
| SubstitutionLaws.PromptReach | engine/image/sambuca-image.py:110-113 | leaves that do not mention the prompt's placeholder do not depend on the prompt |
| SubstitutionLaws.EmbeddedExact | engine/image/sambuca-image.py:110-113 | inside a longer string the sentence the prompt makes is left as it is exactly if it mentions no other placeholder |
| SubstitutionLaws.PromptInSentence | engine/image/sambuca-image.py:110-113 | between words without a percent sign the prompt arrives as typed exactly if it mentions no other placeholder itself |
| SubstitutionLaws.PostedGraph | engine/image/sambuca-image.py:149-157 | the posted body reads back with the workflow's shape for every prompt, and as the very graph exactly if no surrogate pair is spelt out in it |

## Left out

- JsonCanonical.RoundTripExact: a number with a fraction or exponent is kept as its own text; Python's re-formatting of floats is not modelled.
- JsonParsed.LoadsGood: the parser has no limit on nesting depth or on the digits of an integer, where Python has both.
- StewardPipeline.EqualSorted: `==` between a float and another number compares texts, so `1.0 == 1` is not modelled.
- StewardParse.Parse: a reply that is not text at all is not modelled; nor is one nested so deep that `json.loads` raises RecursionError, which the source does not catch: it is then neither a proposal nor a refusal.
- StewardPipeline.Explain: the reply and the proposal are passed as single arguments, whose length the system limits; a longer one is never handed over.
- StewardGate.Resolve: a parameter whose name is a number or a boolean is not modelled, as its key in the plan would be no text.
- GateLaws.CheckExact: a fractional `max_length` is compared as the decimal number that is written, without rounding to a double.
- GateLaws.DurationExact: digits are ASCII, where `isdigit` also accepts other scripts, and `int` is taken to read any number of them.
- GateLaws.SentenceCarriesValues: `str(value)` of a value is a parameter of the model.
- LintedGate.CleanLoads: the catalogue is a document of JSON values; YAML parsing, dates and non-text keys are not modelled.
- StewardLint.Lint: the structural rules only; the keyword rules about self-reference (tools/steward-lint.py:161-234) are heuristics without a specification.
- StewardPipeline.PlanCrosses: the plan is printed on one line where the source indents it; `str()` of a verb that is no text is a parameter.
- StewardAudit.AuditLog.Record: the clock, the directory creation and the file mode are left out; the time stamp is an argument.
- AuditRace.RaceExact: one call's line reaches the file in a single append.
- AuditTorn.TornExact: a cut leaves a front part of the write; blocks written out of order are not modelled.
- Download.Downloads.Fetch: progress, `Content-Length` and the wording of errors are left out; free space is compared exactly where the source multiplies by 1.05 in floating point.
- DownloadRuns.HonestCall: the server is an input; HTTP itself, time-outs and the check of the address are not modelled.
- WordWrap.Wrap: the rest of the boot guide is plain text assembly.
- RecoveryKey.DeriveRecoveryKey: starts at the BIP-39 seed; the word list, its checksum and PBKDF2 are not modelled.
- VaultAnswers.Canonical: `normalise` and case folding are functions nothing is assumed of.
- Vault.VaultFile.Create: the file is printed on one line where the source indents it, and its mode and directory are left out; the random salt and nonce are arguments.
- VaultLaws.PreparedStored: `int()` of a cost given as text or as a fraction is not modelled, nor scrypt's refusal of a cost.
- ImagePins.Pin: what the registries answer is an input; their protocol, and the exit on a file without references, are not modelled.
- PinRuns.SecondRunExact: registries are taken to answer with `sha256:` digests in hexadecimal and to answer a digest with itself.
- Provision.BootPartition.Provision: the script's text is an argument, and creating the payload directory, file modes, names that differ only by case, and the translation of line ends on reading are left out.
- CmdlineHook.RemoveConcat: `sed` is modelled on decoded text for the three expressions it is given, and the rest of the first-boot script is left out.
- Substitution.FillLeaf: a float is shown by its own text.
- Substitution.BuildGraph: the values come typed; command-line parsing and the random seed are left out.
- SubstitutionLaws.PostedGraph: the request and the polling for the picture are left out.
- Device enumeration, imaging, PDF and QR drawing, printing, the interfaces, the beacon, the tailnet, the compose files and the release tools are not part of this model.
