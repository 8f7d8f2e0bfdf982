# Nexus: verified models of its hard cores

A Dafny 4.11 model of six parts of the Nexus repository, and proofs about them:

1. **Redaction that keeps a JSON document a JSON document.** A byte scanner finds where the keys, string values,
   numbers and escapes of a document are (`JsonLayout`); findings are clipped and widened to whole pieces of string
   values and whole numbers (`Redaction`); the edits are sorted, merged and spliced (`Splice`); `Enforce.Redact` puts
   them together. `Json` is the grammar of RFC 8259 as trees with explicit whitespace. `RedactTokens` and `RedactTree`
   carry the splice back to a tree, `RedactionLaws` and `RedactionText` say which bytes go and that text stays text,
   `GlyphCuts` and `ValueLaws` say the same of the characters a reader of the values sees, and `JsonDecode`,
   `JoinedSpans`, `Presidio`, `DetectorLaws` and `ProseLaws` treat the contextual detector, which reads decoded values.
2. **The session protocol over a shared log** (`Session`, `SessionIo`, `SessionRuns`): two codecs, two transports, and
   a transition system with unknown append outcomes, repeats, other traffic and trimming.
3. **Agent certificate issuance** (`Issuance`, `IssuanceRuns`): processes over a key-value store with put-if-absent, in
   which a call may report an error and still take effect, then or later.
4. **Hierarchical leased locks** (`LockPaths`, `Locks`, `LockRuns`, `LockLeases`).
5. **The cross-domain address codec** (`Base32`, `DomainAddress`), over UTF-8 (`Utf8`).
6. **Check digits and the run scanner** (`CheckDigits`, `RuleScanner`, `CheckLaws`), and **the token cache**
   (`TokenCache`, `TokenRuns`).

`dafny verify dfyconfig.toml` checks the whole project.

## How the outside appears

- The JSON parser's verdict is the parameter `parses`; when it holds, the content is the rendering of some valid tree,
  which is a ghost parameter. Nothing depends on which tree.
- Serialized session records are represented by what the two decoders can tell apart in them: missing, string or other
  members, how numbers are spelled, text that one, both or neither of the parsers reads, sizes. A serialized frame's
  length is a parameter. A JavaScript number that is a safe integer is written as one.
- Whether arithmetic overflow panics or wraps is a parameter of the string decoder.
- Replies of the kernel, the store, the signer, the authorizer and the analyzer are parameters or nondeterministic
  steps. Digests are function parameters, injective where a key is made of one; a token's hash is any hexadecimal
  string.
- Clocks are parameters. The token cache uses one clock for its time-to-live and for record expiry.
- Error texts are reduced to tags, and to `None` where no property tells them apart.
- The stamp hook is taken to make a record's `from` truthful, and each side to have one codec for a channel.

## What the code does less than it promises

- A lock holder renews its lease by acquiring again, except on `/`: the range query below the root finds the root
  itself. `LockLeases.RenewalExact` gives the exact condition and `LockLeases.RootNotRenewed` a case.
- An acquire that asks for room for no holders leaves an entry without holders: `LockLeases.EmptyEntryLeft`,
  and `LockLeases.EmptyEntryCase` for a case.
- A stale entry is said to be on a path nobody cares about (`lock_state.rs:266-270`). An acquire prunes only its own
  path, so expired leases above or below it, and on `/` its own, still refuse it until they are collected.
  `LockLeases.ExpiredInTheWay` says exactly when, and `LockLeases.ExpiredCase` is a case.
- Collecting expired holders commutes with a successful acquire exactly when the new lease ends after the clock's
  reading: `LockLeases.CollectCommutes`, and `LockLeases.CollectCase` for a case.
- "No span anywhere can break the JSON" (`enforce.rs:523`) holds of the grammar for every document and every finding,
  but not for a parser that also builds the strings: escapes are kept whole one `\uXXXX` at a time, so a finding on one
  half of a surrogate pair leaves the other half alone, which such a parser refuses.
  `ValueLaws.SplitPair` is a case, and `ValueLaws.ParsesIff` the exact condition: no finding touches the middle of a
  pair without taking both halves. The detector's findings always meet it, and are never refused
  (`DetectorLaws.DetectorSafe`).
- The comment on `decode` says a string of a parsed document always decodes, but the parser in front of it does not look
  into escapes. A string stands for characters exactly when it is UTF-8 and holds no half of a surrogate pair without
  the other (`ValueLaws.ReadsUnlessLone`; `ValueLaws.LoneRefused` is a case). Nor is every other string refused: `decode`
  takes a high half and any `\u` escape after it for a pair. `JsonDecode.SeenGot`, `JsonDecode.SeenRefused` and
  `JsonDecode.SeenPanicked` say exactly which strings it reads, refuses and panics on, and `JsonDecode.SeenExact` when
  that is what it should do; `\ud800\u0041` panics or reads as U+2441 and `\ud800\ue000` reads as U+10400
  (`JsonDecode.MispairedCases`).
- The findings counted in `discarded` are said to be probable ones. A provable finding is counted among them exactly
  when its span is empty and strictly inside no string value and no number: `RedactionLaws.ProvableDiscarded`, and
  `RedactionLaws.ProvableCounted` for a case.
- The two session decoders are to read one wire format, but Node's parser reads more text and takes `1.0` for an
  integer. `Session.SameDeliveries` and `Session.SameOutcomes` say exactly on which records they deliver alike and
  come to the same; `Session.FloatSpelled` and `Session.HalfPairSent` are cases. A message the Rust parser cannot read
  is encoded all the same, and is the only fault a reader finds in its peer's frames without trimming:
  `SessionRuns.FaultWithoutTrimming`.

## Model

| member | source | states |
|---|---|---|
| `Json.LexedDoc` | rust/egress_gate/src/json_layout.rs:50-63 | flattening any valid tree gives tokens a left-to-right scanner can follow: a key is the string before a colon, a number ends where no numeric byte follows |
| `JsonLayout.PassDoc` | rust/egress_gate/src/json_layout.rs:57-103 | one flat pass with a stack of owners marks what the recursive walk of the tree marks, at the same places and with the same owners |
| `JsonLayout.FollowedByColon` | rust/egress_gate/src/json_layout.rs:89-93 | looks past whitespace for a colon |
| `JsonLayout.ScanString` | rust/egress_gate/src/json_layout.rs:76-86 | stops at the string's own closing quote, having listed exactly its escapes |
| `JsonLayout.ScanNumber` | rust/egress_gate/src/json_layout.rs:105-112 | ends where the number ends |
| `JsonLayout.ScanLiteral` | rust/egress_gate/src/json_layout.rs:75-104 | interior, key flag, owner and new owner stack of one string literal |
| `JsonLayout.ScanToken` | rust/egress_gate/src/json_layout.rs:62-114 | one arm of the scanner consumes one token and marks it |
| `JsonLayout.Scan` | rust/egress_gate/src/json_layout.rs:53-117 | on every rendering of every tree, the scanner returns exactly the tree's string interiors, key flags, owners, numbers and escapes, in order; nothing when the parser rejects |
| `Splice.SafeTag` | rust/egress_gate/src/enforce.rs:100-112 | every character of the tag gives one byte: itself if it is a letter, digit, `_` or `-`, and a hyphen if not |
| `Splice.MarkerText` | rust/egress_gate/src/enforce.rs:100-112 | the marker reads `[REDACTED:`, the tag character by character, `]` |
| `Splice.SortSorts` | rust/egress_gate/src/enforce.rs:255 | the edits in order of start and end, none lost |
| `Splice.SortStable` | rust/egress_gate/src/enforce.rs:255 | edits with equal ranges keep their findings' order |
| `Splice.GroupsSeparate` | rust/egress_gate/src/enforce.rs:260-270 | merged groups neither overlap nor touch |
| `Splice.PlanLeader` | rust/egress_gate/src/enforce.rs:261-270 | a group has the tag and quotes of its first edit in sorted order; every earlier edit ends strictly before the group |
| `Splice.PlanFirst` | rust/egress_gate/src/enforce.rs:255-270 | said of the edits as they came: a group has the tag and quotes of the shortest of those that start where it does, and of these the first |
| `Splice.PlanCovers` | rust/egress_gate/src/enforce.rs:265-270 | every edit, an empty one included, lies inside some group |
| `Splice.MergeGroup` | rust/egress_gate/src/enforce.rs:261-270 | the inner loop yields the next group and stops at the first edit past it |
| `Splice.Apply` | rust/egress_gate/src/enforce.rs:254-290 | the output is the groups spliced in; the guard `start >= cursor` never fails |
| `Splice.Conservation` | rust/egress_gate/src/enforce.rs:254-290 | every output byte is a copied one, in order, or part of a marker; a byte is copied exactly when no edit covers it |
| `RedactTokens.MergeFits` | rust/egress_gate/src/enforce.rs:265-270 | edits that overlap or touch stand in one token, so merging never joins two values |
| `RedactTokens.SpliceTokens` | rust/egress_gate/src/enforce.rs:254-290 | splicing well-placed edits into the spelling of tokens spells the same tokens, each string value with the runs the groups take replaced by masks and numbers turned into mask strings |
| `RedactTree.RebuildDoc` | rust/egress_gate/src/enforce.rs:523-560 | masked tokens of a document are the tokens of a valid document with the same keys, shape, words and whitespace |
| `TokenPlaces.TokensApart` | rust/egress_gate/src/json_layout.rs:41-48 | two tokens of a text are one or do not overlap |
| `TokenPlaces.Survey` | rust/egress_gate/src/json_layout.rs:41-48 | each entry of the layout is a token of the text at its place, and no escape of a string value is missing |
| `Redaction.CoveredByLayout` | rust/egress_gate/src/enforce.rs:218-221 | the two counting loops count the span's bytes in string interiors and numbers |
| `Redaction.WholeSpan` | rust/egress_gate/src/enforce.rs:249-251 | a fully covered, non-empty span lies in one string or one number, since tokens never touch |
| `Redaction.WidenClip` | rust/egress_gate/src/enforce.rs:220-233 | the clip widened to the nearest piece boundaries, and no further |
| `Redaction.StringEdits` | rust/egress_gate/src/enforce.rs:220-239 | what the first loop adds, counts and flags: an edit for every overlapped value and for nothing else |
| `Redaction.NumberEdits` | rust/egress_gate/src/enforce.rs:240-248 | the same for numbers |
| `Redaction.JsonEdits` | rust/egress_gate/src/enforce.rs:215-252 | exactly the edits the finding calls for, value by value; the verdict is "touches a key or bare syntax"; no edit exactly when no value or number is overlapped |
| `Redaction.OffStructure` | rust/egress_gate/src/enforce.rs:249-251 | a non-empty span is off structure if and only if it lies inside one string value or one number |
| `Enforce.MarkerIsMask` | rust/egress_gate/src/enforce.rs:100-112 | a marker of any tag is valid string content |
| `Enforce.CheckSpans` | rust/egress_gate/src/enforce.rs:165-182 | the first finding that lies outside the content or cuts a character, if there is one |
| `Enforce.CollectEdits` | rust/egress_gate/src/enforce.rs:192-208 | refused exactly when a provable finding is on structure; otherwise every finding's edits in finding order, and the count of findings that touch nothing |
| `Enforce.Redact` | rust/egress_gate/src/enforce.rs:164-211 | for every document and every list of findings: exactly when it refuses, and with the fault of the first finding at fault; otherwise the output is a valid JSON text of the same keys, shape and literals, differing only in masked string values and numbers turned into marker strings |
| `RedactionLaws.JsonConservation` | rust/egress_gate/src/enforce.rs:164-290 | a byte of the document is copied if and only if no finding calls for an edit over it, and copied bytes keep their order |
| `RedactionLaws.ProvableGone` | rust/egress_gate/src/enforce.rs:192-252 | an accepted, non-empty provable finding lies inside one string value or number and none of its bytes is copied |
| `RedactionLaws.ProvableDiscarded` | rust/egress_gate/src/enforce.rs:192-208 | an accepted provable finding calls for no edit if and only if its span is empty and strictly inside no string value and no number |
| `RedactionLaws.ProvableCounted` | rust/egress_gate/src/enforce.rs:115-124 | such a finding, counted as discarded |
| `RedactionText.JsonTextStaysText` | rust/egress_gate/src/enforce.rs:174-180 | redacting a UTF-8 document leaves UTF-8: clipping, widening and merging never cut a character |
| `RedactionText.PlainTextStaysText` | rust/egress_gate/src/enforce.rs:174-189 | so does redacting UTF-8 that is not JSON |
| `GlyphCuts.MaskedGlyphs` | rust/egress_gate/src/enforce.rs:254-290 | masking runs of pieces that end between characters masks exactly those characters |
| `GlyphCuts.LonelyRun` | rust/egress_gate/src/enforce.rs:220-239 | a group that ends between the halves of a surrogate pair leaves a lone half next to its marker |
| `ValueLaws.MaskedAt` | rust/egress_gate/src/enforce.rs:254-290 | every string value is masked by the groups that stand in it and by no others |
| `ValueLaws.Commutes` | rust/egress_gate/src/enforce.rs:164-290 | redaction commutes with decoding: for any findings, a string value with no pair split reads as the old text with exactly the characters called away replaced, one marker for each maximal run, under the tag of a finding that starts there |
| `ValueLaws.ReadableIff` | rust/egress_gate/src/enforce.rs:220-239 | a string value can still be read if and only if no finding splits one of its surrogate pairs |
| `ValueLaws.ReadsUnlessLone` | rust/egress_gate/src/json_layout.rs:118-176 | a string can be read if and only if it is UTF-8 and holds no half of a surrogate pair without the other |
| `ValueLaws.LoneRefused` | rust/egress_gate/src/json_layout.rs:121-122 | a lone half is a valid document that does not decode |
| `ValueLaws.ParsesIff` | rust/egress_gate/src/enforce.rs:522-560 | a document whose strings can all be read still is one after redaction if and only if no finding splits a pair |
| `ValueLaws.SplitPair` | rust/egress_gate/src/json_layout.rs:44-46 | a finding on the second half of a pair, accepted, after which the document's string cannot be read |
| `Utf8.DecodeEncode` | rust/egress_gate/src/json_layout.rs:167-170 | decoding UTF-8 undoes encoding |
| `Utf8.EncodeDecode` | rust/egress_gate/src/json_layout.rs:167-170 | and encoding undoes decoding |
| `Utf8.BoundaryExact` | rust/egress_gate/src/enforce.rs:174-180 | an index of valid text is a character boundary if and only if the text before it is valid |
| `JsonDecode.ShortIsUnit` | rust/egress_gate/src/json_layout.rs:133-141 | each short escape stands for what the `\u` escape of its code stands for |
| `JsonDecode.HexExact` | rust/egress_gate/src/json_layout.rs:143-147 | the value of each hexadecimal digit, in either case |
| `JsonDecode.PairExact` | rust/egress_gate/src/json_layout.rs:149-156 | two halves stand for a scalar value if and only if section 2.1 of RFC 2781 writes it as them |
| `JsonDecode.ReadWrite` | rust/egress_gate/src/json_layout.rs:131-173 | reading the characters of a string that was written gives them back |
| `JsonDecode.WriteRead` | rust/egress_gate/src/json_layout.rs:131-173 | writing the characters that were read gives the string back |
| `JsonDecode.SeenGot` | rust/egress_gate/src/json_layout.rs:124-176 | the code reads a string as given characters if and only if they spell it and it gets through each of them |
| `JsonDecode.SeenRefused` | rust/egress_gate/src/json_layout.rs:124-176 | it refuses if and only if, past characters it reads, it comes to a low half alone, a high half with no `\u` escape after it or one it fuses to no scalar value, or bytes that begin no character |
| `JsonDecode.SeenPanicked` | rust/egress_gate/src/json_layout.rs:149-156 | it panics if and only if arithmetic is checked and, past characters it reads, it comes to a high half and a `\u` escape of a unit below the low halves |
| `JsonDecode.SeenExact` | rust/egress_gate/src/json_layout.rs:142-160 | the code reads a string as it should, or refuses it as it should, if and only if the string is not spelled with two escapes that it fuses into a character that is not there, and does not lead, past characters it reads, to a checked underflow |
| `JsonDecode.MispairedCases` | rust/egress_gate/src/json_layout.rs:149-156 | two such strings: one panics or reads as a character that is not there, one reads as such a character |
| `JsonDecode.DecodeUnicode` | rust/egress_gate/src/json_layout.rs:142-160 | a surrogate pair is one character, a lone surrogate none; a mispaired one panics, fuses or is refused, by the 32-bit arithmetic |
| `JsonDecode.DecodeLiteral` | rust/egress_gate/src/json_layout.rs:165-171 | one unescaped character, or nothing when the bytes are not one |
| `JsonDecode.Decode` | rust/egress_gate/src/json_layout.rs:124-176 | for every string: the characters and where each starts, a refusal exactly where a character does not decode, or the panic |
| `Presidio.JoinValues` | rust/egress_gate/src/presidio.rs:359-381 | the prose values, decoded and joined with blank lines, with the bytes behind every character; refused, or panicking, exactly as the first prose value that does not decode |
| `ProseLaws.DocOwns` | rust/egress_gate/src/json_layout.rs:29-36 | the owners the walk marks are the nearest keys of the tree: a string lies at a place inside members with given keys, the innermost of which is its owner |
| `ProseLaws.ProseExact` | rust/egress_gate/src/presidio.rs:331-364 | a literal is taken for prose if and only if it is a string value of the tree under no key, or whose nearest key is one of the eight |
| `ProseLaws.DetectsWhen` | rust/egress_gate/src/presidio.rs:364-367 | the detector gets its values if and only if every prose value of the tree decodes |
| `ProseLaws.ProseJoined` | rust/egress_gate/src/presidio.rs:359-381 | every non-empty prose value of the tree has all its characters in the joined text, and a hit on any of them comes back as exactly their bytes |
| `ProseLaws.ProseInOrder` | rust/egress_gate/src/presidio.rs:359-381 | in document order, none twice |
| `ProseLaws.BlankLineBetween` | rust/egress_gate/src/presidio.rs:371-374 | with two line feeds between any two of them |
| `JoinedSpans.PartsStep` | rust/egress_gate/src/presidio.rs:399-414 | one more character adds nothing, a new part, or extends the last part; a run goes on exactly within one value |
| `JoinedSpans.HitFindings` | rust/egress_gate/src/presidio.rs:398-418 | one finding for each value the span touches, from the first touched character's bytes to the last one's |
| `JoinedSpans.ToFindings` | rust/egress_gate/src/presidio.rs:387-422 | all hits in order; refused exactly when a hit is outside the text |
| `DetectorLaws.HitInValue` | rust/egress_gate/src/presidio.rs:359-423 | a span of characters inside one prose value comes back as exactly those characters' bytes in that value |
| `DetectorLaws.OnlyEdit` | rust/egress_gate/src/enforce.rs:164-252 | such a finding lies in the content and cuts no character, is never on structure and never discarded, and the one edit it calls for is its own span |
| `DetectorLaws.FindingsOnChars` | rust/egress_gate/src/presidio.rs:387-422 | whatever the analyzer answers, every finding made of it is one or more whole characters of one string value |
| `ProseLaws.FindingsOnProse` | rust/egress_gate/src/presidio.rs:318-340 | whatever the analyzer answers, every finding made of it lies inside a string value under no key or whose nearest key is `body`, `content`, `text`, `system`, `instructions`, `prompt`, `input` or `arguments`, is named after a reported hit, and is probable only |
| `ProseLaws.OthersKept` | rust/egress_gate/src/presidio.rs:324-330 | redacting those findings leaves every key, every number and every other string value of the document as it is |
| `DetectorLaws.NeverSplits` | rust/egress_gate/src/enforce.rs:220-239 | findings that are whole characters never split a surrogate pair, however they overlap |
| `DetectorLaws.NeverRefused` | rust/egress_gate/src/enforce.rs:164-208 | findings that are whole characters of string values are never refused, whatever their confidence |
| `DetectorLaws.DetectorSafe` | rust/egress_gate/src/presidio.rs:387-422 | for every document whose strings can be read, whatever the analyzer answers, redacting the findings made of it is never refused and leaves a text whose every string can still be read |
| `DetectorLaws.HitRedacted` | rust/egress_gate/src/enforce.rs:164-290 | redacting one finding on some characters of a string value leaves every string value reading as it did, except that value, in which exactly those characters are replaced by the marker |
| `DetectorLaws.TextFindings` | rust/egress_gate/src/presidio.rs:263-280 | code-point spans of plain text become byte spans |
| `DetectorLaws.TextSpanExact` | rust/egress_gate/src/presidio.rs:263-280 | which hold those characters and no others, and which `redact` never faults |
| `Session.SessionCodec.Encode` | rust/a2a/src/session.rs:128-156 | frames are numbered from one; a refused payload leaves the counters alone; exactly requests, notifications and responses with an allowed id, and notices of closing, are encoded, within the bounds of number and size |
| `Session.SessionCodec.Decode` | rust/a2a/src/session.rs:160-199 | only a delivery moves the counter, by one; an error moves nothing |
| `Session.FrameRead` | rust/a2a/src/session.rs:128-199 | what the peer, the writer and another generation make of an encoded frame: in sequence delivered, earlier skipped, later a gap, own and other generations skipped; a fault for the Rust reader whose parser cannot read it |
| `Session.MessageExact` | rust/a2a/src/session.rs:202-231 | exactly which messages are encoded, and delivered by either decoder as the next frame, over the members of the message: with version 2.0 and an allowed id, a text method with neither result nor error, or no method, an id and exactly one of the two; every other is refused |
| `Session.ClosedExact` | rust/a2a/src/session.rs:202-205 | a notice of closing always goes through |
| `Session.AttachExact` | rust/a2a/src/session.rs:41-58 | exactly a sound endpoint attaches; the two sides are each other's peers and each writes as itself |
| `Session.SameDeliveries` | clients/node/src/session.ts:115-140 | the Rust decoder delivers exactly what Node delivers of the records its parser reads whose sequence and id are spelled as integers, and the same payload |
| `Session.SameOutcomes` | clients/node/src/session.ts:115-140 | of the records Node skips or delivers, Rust refuses exactly those with a fault only it minds (named of the record alone) and does the same with the rest; of those Node refuses, Rust skips exactly the bodies that are no object and refuses the rest |
| `Session.FloatSpelled` | clients/node/src/session.ts:63-75 | a sequence or an id spelled `1.0` is delivered by Node and refused by Rust |
| `Session.HalfPairSent` | clients/node/src/session.ts:99-113 | a message with half a surrogate pair is encoded, and then only Node reads it |
| `SessionIo.ReadEffects` | rust/a2a/src/session_io.rs:106-143 | a read hands over one payload and counts it, or counts nothing; a record that fails leaves codec and cursor unchanged |
| `SessionIo.SessionMailbox.Send` | rust/a2a/src/session_io.rs:72-102 | the records handed to the kernel are this side's frames numbered from one without gaps; any reply but a hit closes the channel for good |
| `SessionIo.SessionMailbox.Receive` | rust/a2a/src/session_io.rs:106-143 | every error leaves codec, cursor and closed flag unchanged |
| `SessionIo.NexusSessionTransport.Send` | clients/node/src/session.ts:175-182 | a refused message changes nothing; an accepted one is queued with the next number |
| `SessionIo.NexusSessionTransport.StartAppend` | clients/node/src/session.ts:184-189 | queued frames are handed over in order, and none once the transport is closed |
| `SessionIo.NexusSessionTransport.SettleAppend` | clients/node/src/session.ts:189-193 | a failed append closes the transport for good |
| `SessionIo.NexusSessionTransport.Close` | clients/node/src/session.ts:195-201 | queues the closing frame, or closes at once when there is nothing to say it to |
| `SessionIo.NexusSessionTransport.OnRead` | clients/node/src/session.ts:210-251 | one turn of the read loop: what is handed over, where the cursor goes, what closes the transport |
| `SessionRuns.StepKeeps` | rust/a2a/src/session_io.rs:72-143 | every step of either party, the log or the environment keeps the invariant of both directions |
| `SessionRuns.InOrderDelivery` | rust/a2a/src/session.rs:128-200 | at every point of every run, what one side was handed is a prefix of what the other encoded |
| `SessionRuns.NoGaps` | clients/node/src/session.ts:175-193 | a frame numbered above one is always preceded in the log by the frame before it |
| `SessionRuns.FaultWithoutTrimming` | rust/a2a/src/session.rs:160-199 | a reader that never jumped to the retention floor faults its peer's frame if and only if it is the Rust one and its parser cannot read the message |
| `SessionRuns.CaughtUp` | rust/a2a/src/session_io.rs:106-143 | a reader that never jumped and has read the whole log was handed every payload whose frame landed |
| `SessionRuns.TrimmingReported` | clients/node/src/session.ts:221-246 | a reader that meets a frame past the awaited one reports a gap, or that it cannot read the message, and stays where it is |
| `Issuance.ReadIntentExact` | rust/auth/src/agent_issuance.rs:251-303 | an intent is read back if and only if it is the stored one, valid, for exactly the operation that was asked for, under a record of the agent that is expired from the start and has no right; which part differs is told to the same parties only |
| `Issuance.FinalKeys` | rust/auth/src/agent_issuance.rs:199-203 | certificate keys are reserved, are no agent's key, and are shared by no two intents |
| `Issuance.HexNotReserved` | rust/auth/src/mint.rs:65-113 | a token's hash is never a reserved key |
| `IssuanceRuns.CallHarmless` | rust/auth/src/mint.rs:124-165 | no call a process is about to make, the rotation put included, can touch a claim it may not touch |
| `IssuanceRuns.AnswerHolds` | rust/auth/src/agent_issuance.rs:206-404 | what a process reports, and what it acts on next, is true of the store it leaves |
| `IssuanceRuns.StepKeeps` | rust/auth/src/agent_issuance.rs:206-434 | every step, failed and late calls included, keeps the invariant and every claim |
| `IssuanceRuns.ClaimsPermanent` | rust/auth/src/mint.rs:124-216 | between any two points of any run, claims stay, and no row under a claim and no certificate is modified, except that an agent's own legacy record may give way to another of its own |
| `IssuanceRuns.NameClaim` | rust/auth/src/mint.rs:109-216 | the same for one agent's name; a name that is managed was so, with the same row, since it was claimed |
| `IssuanceRuns.MintExact` | rust/auth/src/mint.rs:124-165 | minting with nothing between puts the record where there is none, replaces the agent's own legacy record, and touches no other row |
| `IssuanceRuns.IntentAgreement` | rust/auth/src/agent_issuance.rs:206-249 | all that was ever committed, finalized or signed for one name is one intent |
| `IssuanceRuns.CommittedStands` | rust/auth/src/agent_issuance.rs:222-249 | in every run, from a report on, the reported intent is read back for its operation, and the row that claims the name names the agent, has expiry 0, no admin right, no zone, and is not revoked |
| `IssuanceRuns.ShutOut` | rust/auth/src/agent_issuance.rs:225-228 | the token gates let no one in on such a record, at any time |
| `IssuanceRuns.FoundCommitted` | rust/auth/src/agent_issuance.rs:239-249 | whatever came between, the next read of a retry, a query or a finalization of that operation finds the intent |
| `IssuanceRuns.RetryReports` | rust/auth/src/agent_issuance.rs:206-249 | an authorized retry of a committed operation, its calls answered, reports the committed intent and changes nothing |
| `IssuanceRuns.QueryReports` | rust/auth/src/agent_issuance.rs:333-351 | an authorized query reports the stored certificate, or the intent if there is none |
| `IssuanceRuns.FinalizeReports` | rust/auth/src/agent_issuance.rs:356-404 | an authorized finalization, with no certificate yet and a signer that signs what was committed, stores and reports that signature |
| `IssuanceRuns.AuthorizedOnly` | rust/auth/src/agent_issuance.rs:356-404 | nothing is reported, and no process reaches the signer or the storing of a certificate, except by a call that was answered and authorized |
| `IssuanceRuns.AgreementOverTime` | rust/auth/src/agent_issuance.rs:206-404 | a later report for the name says what an earlier one said |
| `IssuanceRuns.CertificateAgreement` | rust/auth/src/agent_issuance.rs:356-404 | all finalizations for one name return one record, with the committed intent's digest, TBS digest and serial, and a certificate within its bounds |
| `IssuanceRuns.SignsCommitted` | rust/auth/src/agent_issuance.rs:366-376 | the signer is only ever called on the intent the name is bound to at that moment |
| `LockPaths.RangeIsSubtree` | rust/contracts/src/lock_state.rs:103-113 | in byte order, the keys from `p/` up to `p0` are exactly those that start with `p/` |
| `LockPaths.CollectAncestors` | rust/contracts/src/lock_state.rs:86-101 | the loop lists the strict ancestors, nearest first |
| `LockPaths.AncestorsExact` | rust/contracts/src/lock_state.rs:86-101 | on normalized paths, the listed ancestors are the ancestors |
| `LockPaths.ChecksAgree` | rust/contracts/src/lock_state.rs:86-113 | the range query below `p` finds `q` exactly when `p` is listed above `q`, or both are the root |
| `Locks.LockState.ApplyAcquire` | rust/contracts/src/lock_state.rs:175-219 | the new map and the reply, in place |
| `Locks.LockState.ApplyRelease` | rust/contracts/src/lock_state.rs:222-234 | the named holder goes, an entry left empty goes with it |
| `Locks.LockState.ApplyExtend` | rust/contracts/src/lock_state.rs:243-262 | a live holder's expiry moves, expired ones go |
| `Locks.LockState.GcExpired` | rust/contracts/src/lock_state.rs:124-129 | no expired holder and no empty entry is left, all else stays |
| `LockRuns.ConflictFree` | rust/contracts/src/lock_state.rs:133-143 | the two conflict checks together see every held path above or below |
| `LockRuns.AcquireKeeps` | rust/contracts/src/lock_state.rs:175-219 | an acquire keeps exclusion, distinct ids and capacity |
| `LockRuns.ReachableKeeps` | rust/contracts/src/lock_state.rs:133-262 | in every reachable state no held path is above another held path, and every entry has distinct ids and at most its capacity of holders |
| `LockLeases.ConflictExact` | rust/contracts/src/lock_state.rs:133-143 | the ancestor walk and the range query find a conflict exactly when a held path is above or below, or the path is the held root itself |
| `LockLeases.AcquireExact` | rust/contracts/src/lock_state.rs:175-219 | an acquire succeeds if and only if no held path is above or below, the path is not the held root, and its caller holds it, or nobody does and there is room at all, or there is room left of the shape the holders agreed on |
| `LockLeases.AcquireTells` | rust/contracts/src/lock_state.rs:145-219 | refused for a held path in the way, nothing changes and nothing is told; otherwise the other holders of the path stay unless expired, other paths stay, and the caller is told the path's capacity and holders, of whom it is one exactly if it succeeded |
| `LockLeases.AcquireRecords` | rust/contracts/src/lock_state.rs:189-216 | a new holder is recorded as it asked, from now to now plus its time, saturating; one that renews keeps its record but for the expiry |
| `LockLeases.ReleaseExact` | rust/contracts/src/lock_state.rs:222-234 | a release takes away the named holder of the path and no one else, on any path, and says whether there was one |
| `LockLeases.ForceExact` | rust/contracts/src/lock_state.rs:236-241 | a forced release takes away every holder of the path and no other |
| `LockLeases.ExtendExact` | rust/contracts/src/lock_state.rs:243-262 | an extension succeeds exactly when the holder's lease is not over; other holders of the path stay unless expired, other paths stay as they are |
| `LockLeases.ExtendRenews` | rust/contracts/src/lock_state.rs:243-262 | an extended lease ends at now plus its time, or at the largest time there is |
| `LockLeases.CollectExact` | rust/contracts/src/lock_state.rs:124-129 | collecting takes away the holders whose lease is over and no one else, and leaves no empty entry |
| `LockLeases.AcquireHarmless` | rust/contracts/src/lock_state.rs:175-219 | an acquire, whatever it comes to, leaves every other lease that is not over as it was |
| `LockLeases.LeaseLost` | rust/contracts/src/lock_state.rs:175-262 | over every run, on every path and at every capacity, a lease is lost only through its holder's own command, by force, or to a command whose clock is at or past its expiry |
| `LockLeases.LeaseTheorem` | rust/contracts/src/lock_state.rs:175-262 | two ids acquire a one-holder path, with nothing between from the first holder and no force, only if some command since carried a clock at or past the first lease's expiry |
| `LockLeases.CollectCommutes` | rust/contracts/src/lock_state.rs:124-129 | collecting before or after a successful acquire gives the same state if and only if the new lease ends after the clock's reading |
| `LockLeases.CollectCase` | rust/contracts/src/lock_state.rs:175-219 | a lease of no length, which collecting takes away after the acquire and not before |
| `LockLeases.ExpiredInTheWay` | rust/contracts/src/lock_state.rs:175-219 | an acquire is refused and would succeed after collecting if and only if there is room for it, some held path is in its way, and on every such path all leases are over |
| `LockLeases.ExpiredCase` | rust/contracts/src/lock_state.rs:184-188 | a lease on the root that is over refuses another on a path below |
| `LockLeases.RenewalExact` | rust/contracts/src/lock_state.rs:196-200 | a holder whose lease is not over renews it by acquiring again if and only if the path is not the root |
| `LockLeases.RootNotRenewed` | rust/contracts/src/lock_state.rs:140-143 | a held root refuses its own holder |
| `LockLeases.EmptyEntryLeft` | rust/contracts/src/lock_state.rs:190-218 | an acquire leaves an empty entry exactly when it asks for no capacity and nobody holds the path |
| `LockLeases.EmptyEntryCase` | rust/contracts/src/lock_state.rs:190-218 | asking for room for no holders on a free path |
| `Base32.DecodeEncode` | rust/a2a/src/domain_address.rs:25-30 | decoding undoes encoding, for every byte string |
| `Base32.EncodeDecode` | rust/a2a/src/domain_address.rs:25-30 | every accepted text is the encoding of what it decodes to |
| `Base32.LetterOrder` | rust/a2a/src/domain_address.rs:25-30 | the alphabet is that of section 6 of RFC 4648, in its order, in lower case |
| `DomainAddress.SegmentShape` | rust/a2a/src/domain_address.rs:86-95 | a segment has at most 255 bytes, all lowercase letters, digits and dots |
| `DomainAddress.SegmentText` | rust/a2a/src/domain_address.rs:89-95 | a segment reads `a2.`, the authority, `.`, the subject |
| `DomainAddress.ParsePrinted` | rust/a2a/src/domain_address.rs:89-121 | parsing a printed segment gives the address back |
| `DomainAddress.ParseSegment` | rust/a2a/src/domain_address.rs:97-121 | an accepted segment is the print of a valid address |
| `DomainAddress.SegmentAccepted` | rust/a2a/src/domain_address.rs:55-64 | an address is accepted if and only if its authority has 32 bytes and its subject 1 to 124, none of them a control character's |
| `DomainAddress.AlreadyCanonical` | rust/a2a/src/domain_address.rs:117-119 | the final comparison never rejects: splitting, base32 and UTF-8 are each canonical |
| `DomainAddress.Converse` | rust/a2a/src/domain_address.rs:146-163 | a conversation exists exactly for a valid space and two different agents, and is in segment order |
| `DomainAddress.ConverseExact` | rust/a2a/src/domain_address.rs:32-42 | a conversation exists if and only if the agents differ and the space is 32 lower-case hexadecimal digits |
| `DomainAddress.ConverseSymmetric` | rust/a2a/src/domain_address.rs:146-163 | both argument orders give the same conversation, of those two agents |
| `Bytes.LessExact` | rust/a2a/src/domain_address.rs:146-163 | the order of segments: the lesser is a proper prefix, or smaller at the first difference |
| `DomainAddress.ParsePrintedPath` | rust/a2a/src/domain_address.rs:170-239 | parsing the printed transcript or reader path gives it back, within the path bound |
| `DomainAddress.PathText` | rust/a2a/src/domain_address.rs:170-197 | how the transcript and reader paths read, part by part |
| `DomainAddress.PathBijection` | rust/a2a/src/domain_address.rs:201-239 | a path is accepted as an address if and only if the address is valid and prints to it |
| `DomainAddress.CaseDistinct` | rust/a2a/src/domain_address.rs:20-24 | two accepted paths that are equal up to ASCII case are equal |
| `CheckDigits.IdSubstitution` | rust/egress_gate/src/rules.rs:243-284 | changing any one character of a valid identity number, `X` and `x` taken as one, makes it invalid |
| `CheckDigits.IdSwap` | rust/egress_gate/src/rules.rs:243-284 | so does exchanging two unequal neighbours |
| `CheckLaws.WeightsArePowers` | rust/egress_gate/src/rules.rs:241-333 | the weights of the three codes are powers of two from the right modulo 11, and of three from the left modulo 31 |
| `CheckLaws.IdCardExact` | rust/egress_gate/src/rules.rs:254-284 | an identity number is seventeen digits and a check character, with a plausible division and date, whose sum with the check character comes to one modulo eleven |
| `CheckLaws.IdSpecimen` | rust/egress_gate/src/rules.rs:449-451 | the worked example of GB 11643 is one |
| `CheckLaws.MonthNineteen` | rust/egress_gate/src/rules.rs:455-458 | a number with a fitting check character and month nineteen is none |
| `CheckDigits.SumValues` | rust/egress_gate/src/rules.rs:318-324 | the summing loop: the weighted sum, or nothing exactly when a character has no value |
| `CheckDigits.TestOrgCode` | rust/egress_gate/src/rules.rs:337-359 | decides the embedded organization code |
| `CheckLaws.OrgCodeExact` | rust/egress_gate/src/rules.rs:337-359 | an organization code is eight characters, letters counted from ten, and the one that makes their sum a multiple of eleven |
| `CheckDigits.TestUsci` | rust/egress_gate/src/rules.rs:314-329 | decides the social credit code |
| `CheckLaws.UsciLetters` | rust/egress_gate/src/rules.rs:286-290 | the alphabet is the digits and the letters but `I`, `O`, `S`, `V` and `Z`, in order |
| `CheckLaws.UsciExact` | rust/egress_gate/src/rules.rs:314-329 | a social credit code is eighteen of these whose sum is a multiple of thirty-one, around an organization code |
| `CheckDigits.UsciSubstitution` | rust/egress_gate/src/rules.rs:290-329 | changing any one character of a valid social credit code makes it invalid |
| `CheckDigits.UsciSwap` | rust/egress_gate/src/rules.rs:290-329 | so does exchanging two unequal neighbours |
| `CheckDigits.LuhnSubstitution` | rust/egress_gate/src/rules.rs:400-419 | changing one digit of a valid card number of any length makes it invalid |
| `CheckDigits.LuhnSwap` | rust/egress_gate/src/rules.rs:400-419 | exchanging two neighbours goes unnoticed if and only if they are equal or are 0 and 9 |
| `CheckLaws.LuhnCheckDigit` | rust/egress_gate/src/rules.rs:400-419 | after any digits there is exactly one check digit: the one that completes the sum in which the last of them, and every second before it, counts as the digits of its double |
| `CheckLaws.TwoDigits` | rust/egress_gate/src/rules.rs:400-419 | `18` and `26` are valid, `81` and `62` are not |
| `CheckLaws.BankCardExact` | rust/egress_gate/src/rules.rs:372-398 | a card number is a number in the range and of a length of one of the brands, whose sum is a multiple of ten |
| `CheckLaws.CardSpecimen` | rust/egress_gate/src/rules.rs:460-461 | the published `4111111111111111` is one |
| `CheckLaws.NoIssuer` | rust/egress_gate/src/rules.rs:464-465 | a number with a valid sum and no issuer is none |
| `CheckLaws.MobileExact` | rust/egress_gate/src/rules.rs:429-443 | a mobile number is eleven digits in an allocated segment |
| `CheckLaws.ClassifyExact` | rust/egress_gate/src/rules.rs:148-175 | an identity number, its `X` included, comes before a card and a card before a mobile number, which alone is probable |
| `RuleScanner.GroupedCard` | rust/egress_gate/src/rules.rs:183-209 | the end of the last group when the joined digits of at least three groups are a card; giving up past nineteen digits misses none |
| `CheckLaws.GroupedExact` | rust/egress_gate/src/rules.rs:183-209 | a grouped card is three or more runs of three to six digits with one same separator between them and no further one after, whose digits are a card number |
| `RuleScanner.ScanDigitRuns` | rust/egress_gate/src/rules.rs:111-140 | reports in order and disjoint, each from a digit boundary with exactly its own span; every run that is an identifier is reported, and every grouped card unless it starts inside a report |
| `RuleScanner.ScanCodeRuns` | rust/egress_gate/src/rules.rs:215-238 | adds every social credit code with its own span unless part of it was reported already |
| `RuleScanner.Scan` | rust/egress_gate/src/rules.rs:95-101 | all of the above at once, sorted and sharing no byte |
| `TokenCache.AdmitExact` | rust/auth/src/provider.rs:387-424 | the gates let in exactly a decodable record that is not revoked, has a zone or is global, and is not past its expiry, and as whom: user, admin flag, agent and zone by the record's fields |
| `TokenCache.KeyPlane.Resolve` | rust/auth/src/provider.rs:360-424 | a live entry answers; otherwise the gates do, so that only a record in force is let in, and only an admitted context is cached, until the time-to-live from then |
| `TokenRuns.BoundedStaleness` | rust/auth/src/provider.rs:360-424 | under every interleaving, an answer is what the gates of one lookup, at its step, said of the row that lookup read at its step: a caller is let in exactly when that row was a record not revoked, with a zone or global, and not past its expiry then, and acts as its fields say; an answer from the cache was cached by that lookup, and its row is younger than the time-to-live and that lookup's own delay from reading to caching |
| `TokenRuns.CacheAgrees` | rust/auth/src/provider.rs:218-222 | with every change invalidated before the next lookup, an answer is what the gates say now, except that a record may outlive its expiry by no more than its lookup's delay from the gates to caching, and on a later hit by less than that and the time-to-live |

## Left out

- The JSON parser, BLAKE3, SHA-256, HMAC, X.509 and the real signer: libraries.
- The Raft log, the kernel's system calls and the store backends, beyond atomic maps with uncertain replies.
- The analyzer's sockets, HTTP parsing and deadlines, and the policies that turn findings into actions.
- Owner keys as text: the scanner keeps a key's raw bytes, where the code converts them with replacement characters; the
  prose keys are ASCII, so the comparison is the same.
- The two locks of the session mailbox as locks: a send is one call that encodes and appends, and in `SessionRuns` the
  two are separate steps of which readers may come between.
- Promise scheduling of the Node transport, beyond the order of the write chain and the turns of the read loop; retry
  delays.
- Issuance operations as procedures that change a store object: they are processes over values, one store call to a
  step, because what is proved is about their interleavings.
- Shape checks of issuance bindings and certificate intents: predicates of the environment.
- `get_lock`, `list_locks`, `escaped_subject`, certificate-based identities and the revoked-serial set.
- Credential heuristics, federated search, live policy reload, zone validators, and the HTTP and gRPC plumbing.
- Messages as values: a payload is compared as it is written, so that what Node's parser loses of a number past 2^53
  inside a message is not seen. A `type` member that is a number is an unknown type to both decoders here.
- The Node codec's constructor, which checks only the form of the transcript's path.
