# A model of the APC proxy's Thales side

A TCP proxy speaks the payShield host-command protocol to its clients and turns each command into
AWS Payment Cryptography (APC) calls. This project models that proxy in Dafny and proves what its
protocol code promises. `dafny verify dfyconfig.toml` checks all of it.

How the pieces fit together:

- `bytes.dfy`: bytes, error kinds, the ASCII number and hex codecs.
- `framing.dfy`, `connection.dfy`: the length-prefixed framing and the connection loop with its
  growing and draining buffer, as nested loops over arbitrary reads. `exchange.dfy` is the dual
  read loop towards an HSM, and `passthrough.dfy` puts it into the connection loop.
- `shell.dfy`: the accept loop with its permits, the request counter and the discovery log as a
  step system in which connection tasks interleave freely, answers included.
- `reader.dfy`, `keys.dfy`: the payload cursor as a class, and the key and KSN fields, TR-31 blocks
  included. `keymap.dfy`: the index folded from the paged key inventory, and the resolver.
- `emv.dfy`, `arqc.dfy`, `script_mac.dfy`, `dukpt_pin.dfy`: command grammars with their printers.
  Every printed request is parsed to its record whatever follows it, and every accepted payload is
  a printed request; together that is also why bytes after the last field never matter.
- `apc.dfy` and the command files (`mac.dfy`, `dukpt_mac.dfy`, `mac_translate.dfy`,
  `legacy_mac.dfy`, `encrypt.dfy`, `pin_change.dfy`, `cvv.dfy`): what each command answers and which
  APC calls it makes, over an APC that is any deterministic service, and the laws between commands
  under contracts such as `MacContract` and `PinContract`.
- `contracts.dfy`: a service that meets all those contracts, and concrete inputs on which a law fails
  when APC's MAC is too short for it.
- `registry.dfy`: the dispatch table, with the code lists of all handlers.
- `proxy.dfy`: the connection loop and the shell with the registry and the modelled handlers in them,
  so that every client, alone or among others, gets replies it can decode.
- `probe.dfy`, `verify.dfy`: the KCV probe of the source HSM and the mapping pass of a verify-only run.

Grammars read the remaining bytes front to back (`TakeFrom`, `KeyFrom`, `CountedFrom`); the methods
over `FieldReader` that follow the Rust parsers statement by statement are proved to compute them.
Each command's run lemma (`Mac.MacRun`, `LegacyMac.GeneratorRun`, `PinChange.ChangeRun`, ...) starts from the
bytes on the wire and gives the calls made and the reply literally; the laws between commands come on
top. Text fields are bytes: on ASCII, lossy decoding is the identity. A length field is any spelling
`usize::from_str_radix` takes, one leading `+` included.

What is assumed of APC is written in the contracts and nowhere else: `generate_mac` is
deterministic and `verify_mac` accepts the leading digits of what it returns, 8 or 16 of them or
all 32 of an AES CMAC, and nothing of another length or that differs by more than letter case;
decrypting undoes encrypting, keeps the length and answers
in upper-case hex; generated offsets (1 to 12 digits) and PVVs (4) verify their PIN; a card value has
three digits and is the one that verifies.

## Where code and documentation differ

The model follows the code in each case.

- `src/key_map.rs:257-258` says an unknown usage code falls through to the label path; with a KCV
  in the block it does not (`src/key_map.rs:109-121`). `KeyMaps.UnknownUsageFails` states it.
- `README.md:98` of the repository says a forwarded command reads a single response chunk; the code
  reads until the first frame is complete (`src/hsm_client.rs:107-131`). `Exchange.ReadReply`.
- `src/protocol/thales.rs:48-50` relies on the buffer cap to close a connection with a malformed
  head; `Connection.HandleConnection` shows that is the only thing the cap ever closes.
- `src/handlers/thales/mac.rs:295` slices a regenerated CMAC without the bound used everywhere
  else (`dukpt_mac.rs:210`, `mac_translate.rs:216`). `Mac.PanicsExactlyWhen` says when that matters.
- `src/handlers/thales/mac.rs:281-283` says APC verifies an AES CMAC only with all 32 digits, which is
  why M8 compares a fresh one; MY hands eight digits of it to `verify_mac` all the same
  (`src/handlers/thales/mac_translate.rs:222-231`) and so never accepts a whole inbound CMAC, though
  its header documents one (`mac_translate.rs:23-24`). `MacTranslate.WholeCmacNeverTranslated`; GW
  does the same for an AES DUKPT CMAC of size '0' (`dukpt_mac.rs:224-233`).
- `src/handlers/thales/dukpt_mac.rs:31` documents the bidirectional DUKPT variant, the code asks for
  the request variant; either way it is a constant and not part of a `MacRequest` here.
- The grounding notes (`src/handlers/thales/mac.rs:197`) promise a verify round trip. It holds exactly
  when APC's MAC fills the requested size, and for GW when the reply is no cut AES CMAC, which the
  generate-then-verify lemmas state as equivalences.

## Model

| member | source | states |
|---|---|---|
| `Framing.ParseFramed` | src/protocol/thales.rs:34-84 | A framed message followed by anything parses back to its header, code and body exactly when the body fits the 16-bit length field; a longer one is misframed |
| `Framing.ParseStable` | src/protocol/thales.rs:34-59 | A complete command at the front of the buffer stays that command whatever bytes arrive later |
| `Framing.SplitAppend` | src/protocol/thales.rs:34-59 | Splitting a stream into commands may stop at any byte and resume from the residue: same commands, same residue |
| `Framing.DoomedForever` | src/protocol/thales.rs:45-51 | A head that declares a body under four bytes yields no command ever again, whatever follows |
| `Connection.DrainFrames` | src/server.rs:414-482 | The inner loop answers exactly the commands of the buffer, in order, and leaves its residue, draining at least a frame each pass |
| `Connection.OnRead` | src/server.rs:389-412 | One pass of the outer loop keeps the invariant that state, replies and buffer are those of one split of all bytes received; it stops only when the buffer passes the cap |
| `Connection.HandleConnection` | src/server.rs:369-484 | However the stream is cut into reads, commands dispatched, handler state and bytes written are those of one recursive split of the whole stream, malformed streams included; the cap closes only a connection whose head can never complete; buffer bounds of 65536 + 4096 and 262144 + 4096 bytes; bytes received are bytes drained plus bytes buffered |
| `Connection.ServeAppend` | src/server.rs:409-482 | Serving commands in one go or in two gives the same replies and handler state |
| `Connection.RepliesDecode` | src/server.rs:438-479 | Re-splitting the written bytes gives one reply per command, in order, each with the request's header, the first byte of its code and the second byte plus one modulo 256, and nothing left over, if and only if every handler payload is at most 65529 bytes |
| `Framing.AlignedExactly` | src/protocol/thales.rs:34-84 | Of any byte strings written one after the other, a client that looks after each has found exactly one more command each time and nothing left over if and only if every string is one whole frame |
| `Connection.AnswersRead` | src/server.rs:438-479 | Answers keep their client in step exactly when each is a local reply of at most 65529 payload bytes or one bare frame declaring at least four bytes; the client then decodes those replies in order, a local one under the request's header and its code with the second byte plus one |
| `Exchange.RelayedIsFrame` | src/hsm_client.rs:107-133 | What the read loop makes of a peer's reads is one frame to the client if and only if the peer sends a frame declaring at least header and code and some read ends where it does |
| `Passthrough.OneReplyEach` | src/server.rs:437-479 | With discovery on or off and any handler state: the client finds one reply more after each answer if and only if every forwarded reply is one bare frame declaring at least four bytes and every local reply fits, and it decodes exactly those replies in order |
| `Passthrough.StatesFollow` | src/server.rs:409-482 | Each command is handled in the state the one before it left; one that is neither registered nor forwarded leaves the state alone |
| `Passthrough.ResponseTo` | src/server.rs:437-475 | A registered command gets its handler's reply, an unregistered one 68 without discovery, and with it the real HSM's bytes or 41 if that fails |
| `Passthrough.PassthroughKeepsStep` | src/server.rs:455-465 | The connection loop with the read loop behind it: a discovering proxy keeps its client in step if and only if its handlers fit and, for every command it forwards, the real HSM fails or ends a read where its first frame ends, that frame declaring at least four bytes |
| `Exchange.ReadReply` | src/hsm_client.rs:107-133 | For every chunking the reply is the shortest run of whole reads that holds the first frame, or everything the peer sent if it closes early; never more than 131072 bytes; the 256 KiB bail-out is unreachable |
| `Exchange.BareFrame` | src/hsm_client.rs:107-133 | The reply is the first frame and nothing more if and only if some read ended where that frame does |
| `Exchange.OneFrameRelayed` | src/hsm_client.rs:107-133 | A peer that sends exactly one frame is relayed exactly, and the client decodes one command from it if and only if it declares at least header and code |
| `Shell.EveryRun` | src/server.rs:197-259 | In every interleaving: free permits, the acceptor's permit and live tasks add up to 1024; issued ids count up from 1; every task has dispatched exactly the commands of its own stream; every seen code is in exactly one of file, lost write, or one task's hands; every task has answered its commands in order, all but the one in hand, each as its registration and discovery allow; the codes seen or about to be looked up are those of the unhandled commands |
| `Shell.IdsDistinct` | src/server.rs:18 | Request ids are pairwise distinct across all connections if and only if at most 2^64 were drawn, and grow until the counter wraps |
| `Shell.TaskIsolated` | src/server.rs:414-424 | In any interleaving a task waiting for bytes has dispatched exactly the split of its own bytes, each command under an id of its own, and buffers exactly their residue |
| `Shell.DiscoveryOnce` | src/server.rs:53-77 | A code has been seen or is about to be looked up exactly when a command with it was dispatched, no handler is registered for it, and discovery and logging are on; each has at most one record, and once no task is at it and no write failed the file holds exactly those codes |
| `Shell.ClientsInStep` | src/server.rs:409-482 | In any interleaving: a task's answers are those its own commands may get, in the order of its own stream, at most the last one missing; its client is in step if and only if each answer reads as one reply, and then decodes exactly those |
| `Shell.NeverStuck` | src/server.rs:369-484 | From every reachable state a waiting task can take any read of up to 4096 bytes and go on until it has answered all that is then complete, with any answers its commands may get, whatever the other tasks do; only passing 262144 buffered bytes closes it |
| `Shell.AcceptsAgain` | src/server.rs:197-215 | Whenever fewer than 1024 connections live and the acceptor is idle, it can take another, which starts empty under a new task |
| `Shell.MemoryBounded` | src/server.rs:323-331 | In every interleaving free permits, the acceptor's and live tasks are 1024, and together with the accumulation cap that bounds the bytes buffered by the whole process by 1024 times 266240 |
| `Reader.FieldReader.Take` | src/handlers/thales/reader.rs:44-53 | The cursor stays inside the payload and never moves back; a failed take leaves it in place |
| `Reader.FieldReader.ExpectByte` | src/handlers/thales/reader.rs:72-86 | Succeeds exactly on the expected byte; unlike a failed take, a mismatch has consumed the byte |
| `Reader.FieldReader.Counted` | src/handlers/thales/reader.rs:115-156 | A length field in the given radix, then that many units; the cursor only moves forward |
| `Reader.FieldReader.ParseWith` | src/handlers/thales/reader.rs:97-104 | A sub-parser that claims no more than remains moves the cursor by what it consumed and never out of the payload |
| `Reader.CountedExact` | src/handlers/thales/reader.rs:139-156 | Every counted field that is accepted is some spelling of its length followed by the field |
| `Bytes.ParseFixedDigits` | src/handlers/thales/common.rs:293 | A length printed in a fixed-width field of either radix is read back |
| `Bytes.ParseExactly` | src/handlers/thales/common.rs:293 | A number field is accepted exactly when, after at most one plus sign, it is some value printed in as many digits as it has, letter case aside, and then reads as that value |
| `Bytes.TrimMeans` | src/handlers/thales/mac.rs:77-78 | Trimming takes the ASCII white space off both ends and nothing else |
| `Bytes.Utf8Exact` | src/handlers/thales/common.rs:308 | What passes for UTF-8 is the encoding of some Unicode scalar values (section 3 of RFC 3629) |
| `Bytes.Utf8Valid` | src/handlers/thales/common.rs:308 | The encoding of any Unicode scalar values passes for UTF-8 |
| `Bytes.ErrorCodes` | src/error.rs:39-48 | The two-character reply code of each error kind |
| `Keys.ScanKcOptionalBlock` | src/handlers/thales/common.rs:352-395 | The position-advancing walk computes the recursive walk: the first KC block's upper-cased value, none after a zero-length block, an error on a malformed one |
| `Keys.ScanPrinted` | src/handlers/thales/common.rs:352-395 | Walking a printed list of optional blocks gives the first KC value not preceded by an extended-length block |
| `Keys.Tr31RoundTrip` | src/handlers/thales/common.rs:272-336 | A printed TR-31 block (header and optional blocks of ANSI X9.143) followed by anything parses to its usage, algorithm and KCV, with the printed bytes as raw and 1 plus the declared length consumed |
| `Keys.KeyAppend` | src/handlers/thales/common.rs:407-490 | A key field of any of the three kinds says itself where it ends: nothing after it changes how it is read |
| `Keys.KeyExact` | src/handlers/thales/common.rs:407-490 | What a key parser took off the payload is by itself a whole key field with the same descriptor |
| `Keys.VariantKeys` | src/handlers/thales/common.rs:407-490 | A key with no S prefix is U and 32 digits, T and 48 (not for a BDK), or unprefixed with 16 or 32 by kind, and no other length |
| `Keys.BlockKeys` | src/handlers/thales/common.rs:272-336 | A printed key block is a whole key field of every kind, described by the usage, algorithm and first check value printed in it |
| `Keys.ReadKey` | src/handlers/thales/reader.rs:97-104 | Reading a key through the cursor agrees with the key grammar on the remaining bytes and leaves exactly what follows the key |
| `Keys.KsnPrinted` | src/handlers/thales/common.rs:503-553 | A printed KSN of 20 or 24 digits is read back with its derivation type, whatever follows |
| `Keys.KsnExact` | src/handlers/thales/common.rs:503-553 | Every accepted KSN field is a printed one |
| `KeyMaps.KeyMap.ScanApc` | src/key_map.rs:148-229 | For any paging the index answers every triple as a search of the inventory does; a failing page leaves the index untouched; counters count |
| `KeyMaps.SearchMeaning` | src/key_map.rs:170-217 | The search finds the lexicographically least ARN among the enabled entries with attributes and that upper-cased triple, and nothing exactly when there is none |
| `KeyMaps.OrderIrrelevant` | src/key_map.rs:154-217 | Two listings of the same keys resolve every triple alike, whatever their order or repetition |
| `KeyMaps.WrappedKeyResolves` | src/key_map.rs:100-136 | Every accepted key block with a KCV resolves to an ARN if and only if that is the least among the enabled keys whose usage and algorithm are the names of its codes and whose KCV is its own, case aside, and to KeyNotFound if and only if there is none; labels are not consulted |
| `KeyMaps.StartAndResolve` | src/server.rs:129-133 | Index built from the pages, then one key field resolved: an APC identifier is itself, a block with a KCV the least enabled key it can mean among the listed ones (none when a page failed), any other field its label's target; every failure is KeyNotFound |
| `KeyMaps.IndexIsSearch` | src/key_map.rs:100-136 | The resolver over the index and the resolver that searches the inventory agree on every descriptor |
| `KeyMaps.PrintedKeyResolves` | src/handlers/thales/common.rs:272-336 | A printed block, whatever follows it, resolves by the usage, algorithm and KCV printed in it, or by its wire form as a label when it has no KCV |
| `KeyMaps.PinKeyResolves` | src/key_map.rs:240-282 | A block of usage P0, algorithm T and some KCV finds the least ARN among the enabled TR31_P0_PIN_ENCRYPTION_KEY keys of algorithm TDES_2KEY with that KCV, and no other key |
| `KeyMaps.UsageNames` | src/key_map.rs:259-282 | The APC usage of each of the 18 known usage codes, name by name |
| `KeyMaps.OtherUsages` | src/key_map.rs:259-282 | No other two-character code has a usage name |
| `KeyMaps.AlgorithmNames` | src/key_map.rs:240-250 | The APC algorithm of each algorithm letter, and none for any other |
| `KeyMaps.LexMeans` | src/key_map.rs:170-217 | The order in which the least ARN is taken: a prefix first, else the first differing byte decides |
| `KeyMaps.TextResolves` | src/key_map.rs:100-136 | Text that is no key block passes through when it begins as an APC ARN or alias, and is a label or nothing otherwise |
| `KeyMaps.OtherSpellingAccepted` | src/handlers/thales/common.rs:352-395 | Acceptance is wider than printing: a lower-case block length and a count beyond the blocks present are accepted with the KCV |
| `KeyMaps.BlockWithoutKcv` | src/key_map.rs:122-135 | Every accepted key block without a KCV resolves by its exact wire form as a label and only so |
| `KeyMaps.UnknownUsageFails` | src/key_map.rs:109-121 | Every accepted block with a KCV and an unknown usage fails even when the label map holds the very block, unless the inventory lists a key with no usage |
| `KeyMaps.UsageNameInjective` | src/key_map.rs:259-282 | Two known usage codes never share an APC usage |
| `Emv.EmvPad` | src/handlers/thales/common.rs:22-30 | The padding loop computes padding method 2 (section 6.3.3 of ISO/IEC 9797-1:2011) |
| `Emv.UnpadPadded` | src/handlers/thales/common.rs:22-30 | The padding has an inverse |
| `Emv.PaddedShortest` | src/handlers/thales/common.rs:22-30 | No shorter multiple of eight bytes properly extends the data |
| `Emv.ForwardedInjective` | src/handlers/thales/kw_arqc.rs:145-146 | The padded hex determines the data that was padded |
| `Arqc.ForwardedDataInjective` | src/handlers/thales/kw_arqc.rs:145-146 | Two accepted KQ or KW requests that forward the same transaction data were sent with the same data |
| `Emv.DerivationInputKept` | src/handlers/thales/common.rs:575-580 | For every 8-byte field, zero-filling decoded PAN and sequence number to 16 digits gives the field's hex back (EMV Book 2 Annex A1.4.1) |
| `Emv.PackedDecodes` | src/handlers/thales/common.rs:575-580 | Any PAN of 1 to 14 digits without leading zero and any two-digit sequence number, packed, are decoded back |
| `Arqc.ParseKq` | src/handlers/thales/kq_arqc.rs:66-148 | The cursor parser computes the KQ grammar, errors included |
| `Arqc.ParseKw` | src/handlers/thales/kw_arqc.rs:72-181 | The cursor parser computes the KW grammar, errors included |
| `Arqc.ArqcRoundTrip` | src/handlers/thales/kw_arqc.rs:72-181 | Parsing a printed KQ or KW request gives its record, data padded, whatever follows it |
| `Arqc.ArqcExact` | src/handlers/thales/kq_arqc.rs:66-148 | Every accepted KQ or KW payload is a printed request followed by ignored bytes, parsed to that request's record |
| `Arqc.KwUnsupported` | src/handlers/thales/kw_arqc.rs:72-118 | KW answers 68 exactly to a valid mode with a scheme APC cannot model, however short the rest is |
| `Arqc.Schemes` | src/handlers/thales/kw_arqc.rs:90-118 | The session method of every KQ and KW scheme character, the unsupported KW schemes, and the malformed rest |
| `ScriptMac.ForwardedUnchanged` | src/handlers/thales/issuer_script_mac.rs:123-129 | A message is forwarded unpadded exactly when the host's padding flag says it was padded |
| `ScriptMac.ForwardedAsSent` | src/handlers/thales/issuer_script_mac.rs:135-305 | Of the requests accepted, JU and KU '6' forward the message as sent if and only if their flag byte is '1'; every other KU forwards it padded |
| `ScriptMac.ParseJu` | src/handlers/thales/issuer_script_mac.rs:135-185 | The cursor parser computes the JU grammar, errors included |
| `ScriptMac.ParseKu` | src/handlers/thales/issuer_script_mac.rs:194-305 | The cursor parser computes the KU grammar with its three message framings, errors included |
| `ScriptMac.SmiRoundTrip` | src/handlers/thales/issuer_script_mac.rs:135-350 | Parsing a printed JU or KU request gives its record, whatever follows it |
| `ScriptMac.SmiExact` | src/handlers/thales/issuer_script_mac.rs:135-350 | Every accepted JU or KU payload is a printed request |
| `ScriptMac.KuUnsupported` | src/handlers/thales/issuer_script_mac.rs:194-305 | KU answers 68 exactly to modes 1 to 4, and in mode 0 to schemes 3 and 4 once key, PAN and session data are there |
| `ScriptMac.JuUnsupported` | src/handlers/thales/issuer_script_mac.rs:135-185 | JU answers 68 exactly to modes 1 to 4, however short the rest is |
| `Mac.ParseC2` | src/handlers/thales/mac.rs:41-96 | The cursor parser computes the C2/C4 grammar, trimmed length field included |
| `Mac.ParseM6` | src/handlers/thales/mac.rs:117-175 | The cursor parser computes the M6/M8 grammar |
| `Mac.RequestAppend` | src/handlers/thales/mac.rs:117-175 | A generate request that is used up parses to the same fields when bytes are appended, and leaves exactly those bytes |
| `Mac.MacRoundTrip` | src/handlers/thales/mac.rs:41-175 | Parsing a printed C2 or M6 request gives the algorithm of its selector, its key, its message and its MAC size, whatever follows it |
| `Mac.MacExact` | src/handlers/thales/mac.rs:41-175 | Every accepted C2 or M6 request is a printed one |
| `Mac.MacRun` | src/handlers/thales/mac.rs:254-352 | From the wire to APC and back: the one call C2, C4, M6 or M8 makes, with the key's ARN, the selector's algorithm and the message on the wire, and the reply for each way it can end |
| `Mac.UnresolvedRun` | src/handlers/thales/mac.rs:254-257 | A C2, C4, M6 or M8 request whose key is not known is answered with that reason and makes no call |
| `Mac.MacMalformed` | src/handlers/thales/mac.rs:241-252 | A payload the grammar refuses is answered 15 and makes no call |
| `Mac.GenerateThenVerify` | src/handlers/thales/mac.rs:277-352 | A C2 or M6 reply appended to its own request is answered 00 by C4 or M8 exactly when APC's MAC fills the reply, CMAC included |
| `Mac.OnlyTheMacVerifies` | src/handlers/thales/mac.rs:277-331 | Whatever C4 or M8 answers 00 to agrees with the leading digits of the MAC up to letter case |
| `Mac.PanicsExactlyWhen` | src/handlers/thales/mac.rs:280-301 | A verify request ends its task by a slice out of range exactly when it is a resolvable CMAC request and APC returns fewer digits than the requested size |
| `DukptMac.ParseGw` | src/handlers/thales/dukpt_mac.rs:47-114 | The cursor parser computes the GW grammar, errors included |
| `DukptMac.GwRoundTrip` | src/handlers/thales/dukpt_mac.rs:47-114 | Parsing a printed GW request gives its fields and MAC, whatever follows it |
| `DukptMac.GwExact` | src/handlers/thales/dukpt_mac.rs:47-114 | Every accepted GW payload is a printed request |
| `DukptMac.GwRun` | src/handlers/thales/dukpt_mac.rs:156-267 | From the wire to APC and back: the one call GW makes, with the selector's algorithm, the KSN, the derivation of its length and the message on the wire, and the reply for each way it can end |
| `DukptMac.GwUnresolved` | src/handlers/thales/dukpt_mac.rs:156-159 | A GW request whose base key is not known is answered with that reason and makes no call |
| `DukptMac.GwMalformed` | src/handlers/thales/dukpt_mac.rs:148-155 | A payload the grammar refuses is answered 15 and makes no call |
| `DukptMac.HalfMacChecked` | src/handlers/thales/dukpt_mac.rs:192-222 | The regenerate-and-compare check accepts a half MAC if and only if it is the first four digits of the MAC, in either case |
| `DukptMac.CheckMeaning` | src/handlers/thales/dukpt_mac.rs:192-246 | The check accepts only what agrees with the MAC up to letter case; a whole MAC that begins APC's is accepted if and only if APC verifies MACs of that length |
| `DukptMac.GwGenerateThenVerify` | src/handlers/thales/dukpt_mac.rs:192-267 | A GW generate request with its mode flipped and its reply appended is answered 00 exactly when APC's MAC fills the reply and the reply is not eight digits of an AES CMAC |
| `DukptMac.HalfMacVerifies` | src/handlers/thales/dukpt_mac.rs:192-222 | A half MAC verifies if and only if it is the first four digits of the MAC, in either case |
| `DukptMac.OnlyTheDukptMacVerifies` | src/handlers/thales/dukpt_mac.rs:192-246 | Whatever GW verify answers 00 to agrees with the leading digits of the MAC up to letter case |
| `MacTranslate.ParseMy` | src/handlers/thales/mac_translate.rs:73-124 | The cursor parser computes the MY grammar, errors included |
| `MacTranslate.FieldsExact` | src/handlers/thales/mac_translate.rs:73-124 | Every accepted MY payload is a printed request followed by its MAC |
| `MacTranslate.MyRun` | src/handlers/thales/mac_translate.rs:166-276 | From the wire to APC and back: the check under the first key and algorithm, then on acceptance the MAC of the same message under the second, and the reply for each way it can end |
| `MacTranslate.MyUnresolved` | src/handlers/thales/mac_translate.rs:166-173 | With an unknown key MY makes no call, not even the check under the known one; the inbound key's reason comes first |
| `MacTranslate.MyMalformed` | src/handlers/thales/mac_translate.rs:158-165 | A payload the grammar refuses is answered 15 and makes no call |
| `MacTranslate.VerifiedBeforeGenerated` | src/handlers/thales/mac_translate.rs:200-276 | The outbound generate call is MY's second and last, made exactly when the inbound MAC was accepted; a mismatch is answered 01 with an empty payload |
| `MacTranslate.ReplyVerifiesAsM8` | src/handlers/thales/mac_translate.rs:249-276 | The reply to a MY asking for a whole MAC verifies as M8 size '0' under the outbound key exactly when APC's MAC fills eight digits |
| `MacTranslate.TranslationsChain` | src/handlers/thales/mac_translate.rs:200-276 | A MY reply passes the inbound check of a second MY whose inbound leg is the first's outbound leg, exactly when it was not cut short and is not eight digits of a CMAC |
| `MacTranslate.WholeCmacNeverTranslated` | src/handlers/thales/mac_translate.rs:221-246 | MY never accepts a size '0' CMAC as inbound MAC |
| `MacTranslate.OnlyM8TakesWholeCmac` | src/handlers/thales/mac.rs:280-301 | M8 accepts the whole-size CMAC reply of M6 under a leg and MY refuses the same digits as that leg's inbound MAC |
| `MacTranslate.HalfInboundAccepted` | src/handlers/thales/mac_translate.rs:204-224 | A half inbound MAC lets MY go on if and only if it is the first four digits of the MAC under the inbound key, in either case |
| `LegacyMac.DataStable` | src/handlers/thales/legacy_mac.rs:52-82 | Nothing from the first '~' on, and nothing past a declared length, changes the data authenticated |
| `LegacyMac.GeneratorRun` | src/handlers/thales/legacy_mac.rs:135-420 | MA, MK, MU and MQ ask APC for the algorithm 1 MAC, MS for the algorithm 3 MAC, of exactly the data on the wire, and answer with its first eight digits |
| `LegacyMac.LegacyUnresolved` | src/handlers/thales/legacy_mac.rs:186-193 | With an unknown key no legacy command makes a call, ME and MO not even the check under the known one; the first key's reason comes first |
| `LegacyMac.LegacyMalformed` | src/handlers/thales/legacy_mac.rs:135-420 | A payload the grammar refuses is answered 15 and makes no call |
| `LegacyMac.CheckerRun` | src/handlers/thales/legacy_mac.rs:149-475 | MC, MM and MW have APC verify the eight digits before the data as the algorithm 1 MAC of exactly that data |
| `LegacyMac.TranslatorRun` | src/handlers/thales/legacy_mac.rs:169-526 | ME and MO have them verified under the first key and, on acceptance, ask for the MAC of the same data under the second |
| `LegacyMac.LegacyExact` | src/handlers/thales/legacy_mac.rs:135-390 | Every accepted legacy payload is of the form those three start from: opening, key or keys, digits, data |
| `LegacyMac.ContinuationRefused` | src/handlers/thales/legacy_mac.rs:273-390 | A chained MU, MW, MQ or MS is answered 15 without a call |
| `LegacyMac.ReplyInserted` | src/handlers/thales/legacy_mac.rs:135-330 | Eight bytes put between key and data of a generate payload make the checker's payload with the same key and data |
| `LegacyMac.LegacyGenerateThenVerify` | src/handlers/thales/legacy_mac.rs:135-239 | The reply of MA, MK, MU or MQ, put after the key of the same payload, is answered 00 by MC, MM or MW, for every data, '~' included, if and only if it has all eight digits or the checker takes data bytes for the missing ones and APC accepts them as the MAC of the rest |
| `LegacyMac.LegacyVerifiesExactly` | src/handlers/thales/legacy_mac.rs:135-239 | When all of APC's MACs have n digits, that request is answered 00 if and only if n is at least eight |
| `LegacyMac.ShortMacsNeverVerify` | src/handlers/thales/legacy_mac.rs:445-475 | When they have fewer than eight, no MC, MM or MW is ever answered 00 |
| `LegacyMac.VerifyThenGenerateOrder` | src/handlers/thales/legacy_mac.rs:477-526 | Verify then generate: the generate call is second and last and made exactly on acceptance; a mismatch is 01 and nothing more |
| `LegacyMac.TranslationVerifiesFirst` | src/handlers/thales/legacy_mac.rs:169-271 | An ME or MO that called APC had resolved both keys and kept that order |
| `LegacyMac.TranslatedMacVerifies` | src/handlers/thales/legacy_mac.rs:477-526 | What ME or MO made verifies under the second key as MC or MM over the same data, when APC's outbound MAC has eight digits |
| `LegacyMac.TranslatedMacAlwaysVerifies` | src/handlers/thales/legacy_mac.rs:477-526 | When all of APC's MACs have one length no such condition is needed: an accepted inbound MAC shows there are eight digits |
| `BlockCipher.ParseM0` | src/handlers/thales/international_encrypt.rs:129-160 | The cursor parser computes the M0/M2 grammar |
| `BlockCipher.ParseM4` | src/handlers/thales/international_encrypt.rs:258-370 | M4's hand-advanced position accepts the grammar a reader would, with no index out of range |
| `BlockCipher.M0Exact` | src/handlers/thales/international_encrypt.rs:129-160 | Every accepted M0 or M2 payload is a printed head followed by a counted text that fits its length field |
| `BlockCipher.M4Exact` | src/handlers/thales/international_encrypt.rs:258-370 | Every accepted M4 payload is a printed head with its two keys and a counted text |
| `BlockCipher.BlockRun` | src/handlers/thales/international_encrypt.rs:162-256 | From the wire to APC and back: M0 encrypts and M2 decrypts exactly the text on the wire under the key on the wire, answering with its length in four digits and the result |
| `BlockCipher.BlockUnresolved` | src/handlers/thales/international_encrypt.rs:366-373 | With an unknown key M0, M2 and M4 make no call, M4 not even the decryption under the known one; the source key's reason comes first |
| `BlockCipher.BlockMalformed` | src/handlers/thales/international_encrypt.rs:162-166 | A payload the grammar refuses is answered 15 and makes no call |
| `BlockCipher.TranslateRun` | src/handlers/thales/international_encrypt.rs:372-439 | M4 decrypts the text on the wire under the source key, then encrypts the result under the destination key, and answers with that |
| `BlockCipher.DecryptUndoesEncrypt` | src/handlers/thales/international_encrypt.rs:162-256 | M0's reply is byte for byte the length and message an M2 request ends with, and M2 answers it with the plaintext in upper-case hex and its length |
| `BlockCipher.TranslateKeepsPlaintext` | src/handlers/thales/international_encrypt.rs:258-439 | For every M0 request answered 00, however it spells its length, M4 of its ciphertext gives a ciphertext that M2 decrypts under the destination key to the same plaintext |
| `BlockCipher.RepliesNeverOverflow` | src/handlers/thales/international_encrypt.rs:192-196 | Every M0, M2 or M4 request that arrived in a 16-bit frame gets a reply whose four-digit length is right and which fits a 16-bit frame |
| `PinChange.ParseDu` | src/handlers/thales/pin_change.rs:89-123 | The cursor parser computes the DU grammar |
| `PinChange.ParseCu` | src/handlers/thales/pin_change.rs:125-161 | The cursor parser computes the CU grammar, the one-digit key index included |
| `PinChange.TrimUndoesPad` | src/handlers/thales/pin_change.rs:336 | Trimming 'F' gives back a padded offset if and only if the offset does not itself end in 'F' |
| `PinChange.ChangeRoundTrip` | src/handlers/thales/pin_change.rs:89-161 | Parsing a printed DU or CU request gives its fields, whatever follows it |
| `PinChange.ChangeExact` | src/handlers/thales/pin_change.rs:89-161 | Every accepted DU or CU payload is a printed request |
| `PinChange.ChangeRun` | src/handlers/thales/pin_change.rs:231-470 | From the wire to APC and back: the current PIN block is verified with the two keys in their places, account, format and the bare offset or PVV; on acceptance the new block is asked for with the same; offsets come back filled with F, PVVs as they are |
| `PinChange.ChangeMalformed` | src/handlers/thales/pin_change.rs:231-239 | A payload the grammar refuses is answered 15 and makes no call |
| `PinChange.ChangeStopped` | src/handlers/thales/pin_change.rs:240-258 | What stops a request before any call, in order: its PIN block key, its PVK, its format |
| `PinChange.Formats` | src/handlers/thales/common.rs:43-56 | The PIN block format of each two-digit code, and 23 for any other |
| `PinChange.VerifiesBeforeGenerating` | src/handlers/thales/pin_change.rs:260-463 | In every DU and CU run the new datum is asked for exactly when the current PIN was accepted, by the second and last call; a mismatch is answered 01 with an empty payload |
| `PinChange.EveryRunVerifies` | src/handlers/thales/pin_change.rs:290-351 | Over any series of DU or CU commands that present the last answer's PIN and datum as current, every run verifies |
| `PinChange.StopsOnlyOnError` | src/handlers/thales/pin_change.rs:311-351 | Such a series ends early only after a run not answered 00 |
| `DukptPin.GoRoundTrip` | src/handlers/thales/dukpt_pin_verify_aes.rs:114-178 | Parsing a printed GO request gives its fields, whatever follows it, for both KSN widths |
| `DukptPin.GoExact` | src/handlers/thales/dukpt_pin_verify_aes.rs:114-178 | Every accepted GO payload is a printed request, with no byte that selects an unsupported form |
| `DukptPin.GoUnsupported` | src/handlers/thales/dukpt_pin_verify_aes.rs:65-112 | GO answers 68 to PIN mode 1 and to format 04 |
| `Cvv.CardRoundTrip` | src/handlers/thales/cvv.rs:64-127 | Parsing a printed CW or CY request gives its fields, whatever follows it |
| `Cvv.CardExact` | src/handlers/thales/cvv.rs:64-127 | Every accepted CW or CY payload is a printed request with a PAN of 1 to 19 bytes |
| `Cvv.CardRun` | src/handlers/thales/cvv.rs:190-288 | From the wire to APC and back: CW has the value of the card on the wire made and forwards it, CY has the three digits after the key verified against that card |
| `Cvv.CardUnresolved` | src/handlers/thales/cvv.rs:199-202 | A CW or CY request whose key is not known is answered with that reason and makes no call |
| `Cvv.CardMalformed` | src/handlers/thales/cvv.rs:190-197 | A payload the grammar refuses is answered 15 and makes no call |
| `Cvv.ValueVerifies` | src/handlers/thales/cvv.rs:190-288 | Of all three-byte values put into a CW request answered 00, CY accepts exactly CW's own reply |
| `Probe.FramedKcvRead` | src/hsm_probe.rs:149-183 | A check value of 6 or 16 hex digits framed by an HSM is read back in upper case, with as many trailing spaces dropped as the frame can hold |
| `Probe.FramedRefusalRead` | src/hsm_probe.rs:149-183 | Any other answer code framed by an HSM is read as a refusal under that code |
| `Probe.CandidatesMean` | src/hsm_probe.rs:105-141 | The payloads tried for a form, field by field, and exactly the forms that are tried |
| `Probe.RequestFramed` | src/hsm_probe.rs:72-94 | Each payload goes out as one BU frame under the header PB |
| `Probe.Decisions` | src/hsm_probe.rs:77-93 | No answer, an unreadable one and 68 end the probe, each its own way; any other refusal does not |
| `Probe.TryCandidates` | src/hsm_probe.rs:77-93 | One frame per candidate, each sent only when every earlier reply was a refusal other than 68; the outcome is that of the first deciding reply |
| `Probe.ThalesKcv` | src/hsm_probe.rs:72-94 | At most four frames, none after the deciding reply, and none at all for a form that is no key |
| `Probe.KcvExactlyWhen` | src/hsm_probe.rs:77-93 | A KCV comes out if and only if some candidate is answered 00 with a valid one and every earlier candidate is refused with a code other than 68 |
| `Probe.ProbedFormsAreKeys` | src/hsm_probe.rs:109-141 | A variant-LMK form that is probed is one whole key field to the handlers |
| `Probe.CandidatesDistinct` | src/hsm_probe.rs:109-141 | No two candidates of a form are the same payload |
| `Probe.MatchMeaning` | src/hsm_probe.rs:100-103 | A six-digit APC value matches a probed KCV exactly when it is its first six digits, case aside |
| `Probe.MatchesOn` | src/hsm_probe.rs:100-103 | Two check values match on as many leading digits as both have, six at most and one at least, case aside |
| `Verify.CheckMappings` | src/verify.rs:116-211 | Every distinct target is checked once and its answer kept; usable keys are probed in order up to the first fatal outcome; every mapping gets exactly one report line, plus one notice if a probe was fatal; the passes, the warnings and the errors are each exactly the lines that belong there, in the order of the mappings |
| `Verify.ErrorsName` | src/verify.rs:146-211 | The error lines name exactly the key forms whose APC key is unusable or whose probe found another key |
| `Verify.EachTargetOnce` | src/verify.rs:119-123 | The checked targets are distinct and are exactly the targets of the mappings |
| `Verify.NoProbeAfterFatal` | src/verify.rs:141-189 | Probing goes through the usable keys in order, ends at the first fatal outcome and only there |
| `Registry.Registry.Register` | src/handlers/mod.rs:122-126 | Registration enters the handler under each of its codes over whatever was there |
| `Registry.OneLister` | src/handlers/mod.rs:139-141 | Of the 24 handlers and 169 codes, the not-available stub's 109 included, no code is listed by two handlers |
| `Registry.LookupMeans` | src/handlers/mod.rs:106-130 | Whatever handlers a module has, in any order and however often, a code is looked up to the one of them, or the stub, that lists it: registering never takes a code from another handler |
| `Registry.PayShieldComplete` | src/handlers/thales/mod.rs:47-73 | In the payShield module every handler answers exactly the codes it lists |
| `Registry.StubCodes` | src/handlers/noop.rs:58-76 | The not-available stub lists exactly the codes of a second, sorted table, no more and no fewer |
| `Proxy.RunServes` | src/handlers/thales/mod.rs:47-73 | Each modelled handler does for every code it lists what that code asks for: the 25 codes and what each does, code by code |
| `Proxy.DispatchServes` | src/server.rs:438-446 | Whatever module a handler is registered in, among whatever others, a frame with one of its codes gets what that code asks for |
| `Proxy.GeneratedMacVerifies` | src/handlers/thales/mac.rs:233-252 | Through the registry: a C2 or M6 reply appended to its payload and sent as C4 or M8 is answered 00 exactly when APC's MAC fills it, whatever else is registered and in whatever order |
| `Proxy.EncryptedThenDecrypted` | src/handlers/thales/international_encrypt.rs:112-256 | Through the registry: an M2 that ends with the reply of M0 is answered with the plaintext |
| `Proxy.CardValueVerifies` | src/handlers/thales/cvv.rs:175-288 | Through the registry: of all three-byte values put into a CW request, CY accepts exactly the reply of CW |
| `Proxy.ChangedPinVerifies` | src/handlers/thales/pin_change.rs:218-470 | Through the registry: after a DU or CU answered 00, the next one with the new PIN and datum as current has them accepted |
| `Proxy.RunFits` | src/server.rs:437-446 | Every modelled handler answers every payload that can arrive in a frame, under every code, without panic, with a reply that fits a frame |
| `Proxy.EveryReplyDecodes` | src/server.rs:409-482 | For every byte stream, what the proxy writes splits into exactly one reply per command, in order, with the command's header, its code with the second byte plus one, and what the handler of that code answered; and APC gets the calls of each command in turn |
| `Proxy.ServeClient` | src/server.rs:369-484 | The same at the socket for every way of cutting the stream into reads, together with the APC calls made in order |
| `Proxy.ClientsStayInStep` | src/server.rs:197-259 | In any interleaving of any number of clients, with the modelled handlers, only a reply of the real HSM that is not one bare frame puts a client out of step; with discovery off none ever is, and each client's bytes split into the handlers' replies to its own commands, in order |
| `Contracts.ContractsConsistent` | src/handlers/thales/mac.rs:277-352 | One service meets all the contracts assumed of APC at once, whatever the length of its MACs |
| `Contracts.SoundServiceExists` | src/server.rs:409-482 | The assumptions of the composed proxy can be met |
| `Contracts.WholeCmacRefusedByMy` | src/handlers/thales/mac_translate.rs:221-246 | A concrete size '0' CMAC that M8 accepts and MY refuses |
| `Contracts.WholeCmacRefusedByGw` | src/handlers/thales/dukpt_mac.rs:224-246 | A concrete size '0' AES DUKPT CMAC that GW generates and then refuses to verify |
| `Contracts.ShortMacNotVerified` | src/handlers/thales/mac.rs:332-352 | A concrete M6 request whose reply M8 does not accept, APC keeping its contract but answering with two digits |
| `Contracts.ShortCmacPanics` | src/handlers/thales/mac.rs:294-296 | A concrete M8 CMAC request that ends its task, whatever eight digits it asks to verify |
| `Contracts.ShortLegacyMacRefused` | src/handlers/thales/legacy_mac.rs:149-167 | A concrete MA request whose two-digit reply makes no MC request |

## Left out

- Cryptography: DES, AES, DUKPT and session-key derivation happen inside APC and are unknown functions here.
- TLS, PEM files, AWS credentials, SDK builders and configuration parsing.
- Timeouts and failing reads: a connection may simply end early, as an early end of stream.
- A failing write of a reply: it ends the connection, which in `Shell` is the `Close` step; `HandleConnection` and the bytes in `Shell` are those of writes that succeed.
- A discovery record whose write or flush failed counts as lost for good; the source's buffered writer keeps unflushed bytes, which may reach the file with a later record (`src/server.rs:73-76`).
- Text that is not ASCII: lossy decoding would replace it, Unicode white space would be trimmed from a C2 length or a KCV, and discovery codes that decode alike would share a record.
- The APC requests of KQ, KW, JU, KU and GO, one call each built from the parsed record; their grammars are modelled.
- MacTranslate.TranslationsChain: a static CMAC key is taken to be an AES key, as the handlers take it; for a TDES CMAC key the source says nothing about the lengths APC verifies.
- Proxy.EveryReplyDecodes: the handlers that are not modelled are assumed to keep their payloads to 65529 bytes, and APC's static CMACs to have sixteen digits, since a panicking handler writes no reply.
- LegacyMac.Checker: MS is left out of it because no legacy command checks an X9.19 MAC.
- Cvv.ValueVerifies: assumes three-digit card values, since CW forwards whatever APC returns and CY reads exactly three.
- Verify.CheckMappings: report lines carry the mapping and not their text; unusable keys are one kind, since all four kinds become one error line; APC answers a repeated query alike.
- The state in which a panicking handler leaves its connection task; the permit is released as for any close.
- Handlers that always refuse or answer locally (Diebold, dynamic CVV, HMAC, random PIN, heartbeat), and GQ, GS, GU: their codes are in the registry, their replies are any that fit a frame.
- Vendor modules other than payShield, and builds without it.
- CAP and UnionPay ARQC, EMV decrypt, PIN translate and verify, encrypt/decrypt and DUKPT PIN commands: grammars of the same shapes as those modelled.
- Log text, discovery redaction, report formatting, grounding evidence and zeroization.
- The rest of the verify-only run: credentials, TLS files and the inventory scan's warning.
