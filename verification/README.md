# Verified model of the Baileys protocol engine

This project models, in Dafny, the pure protocol engine under the WhatsApp socket of the Python package
`baileys`, and proves what that engine is for: that what one side writes the other side reads, that
replicated state stays equal, that both ends of a session stay in step, and that the small stateful
services keep their books over every run. `dafny verify dfyconfig.toml` checks everything.

What the package gets from elsewhere enters as parameters with stated laws: AES, HMAC, HKDF and SHA-256
(decrypting undoes encrypting, an AES-GCM ciphertext is 16 bytes longer than its plaintext), protobuf,
JSON and base64 (parsing undoes writing), UTF-8 (decoding undoes encoding), which characters beyond ASCII
`str.isdigit` accepts, the dictionary tables of the node codec, random bytes, the clock, and the answers of
the server. Objects whose methods update their fields are classes; each of their methods is proved against
a function of the old state, and the theorems are about those functions.

| files | subject |
|---|---|
| `Common`, `Text` | bytes, results, fixed-width integers; the Python string operations that are used |
| `TokenTables`, `WABinary`, `WABinaryEncoder`, `WABinaryDecoder` | the node codec: token map, string forms, encoder, decoder |
| `WABinaryRoundTrip`, `WABinaryExact`, `WABinaryNormal`, `WABinaryTwice`, `WABinaryEncodable`, `WABinaryForms` | what comes back from an encoding, when it is the same, when a second normalisation changes it, what can be encoded at all, and the bytes of each form |
| `LtHash`, `AppState`, `AppStateSync`, `AppStateReplication`, `AppStateLog`, `AppStateMacs`, `AppStateRoutes` | the homomorphic hash, patches and snapshots, replication, followers of whole logs, the four MACs, whole runs |
| `Noise`, `NoiseProtocol`, `NoiseWire` | the session objects; two parties and the byte streams between them; vectors, transcripts and frames |
| `Varint`, `Reporting`, `ReportingCanonical`, `ReportingTree` | the reporting-token extractor, the algebra of its results, and its definition on trees of records |
| `WamRecord`, `Wam`, `WamInjective`, `WamBuffer` | the records of WAM, the encoder, its unique parse, and what a buffer reads as |
| `PairingCode` | the base-32 text of pairing codes |
| `Jid` | the address parser, printer and normaliser |
| `PreKeys` | the allocation and upload of one-time pre-keys |
| `Store`, `StoreRuns`, `StoreBooks` | the in-memory message store, its runs, and the values of its chats and contacts |
| `Replay` | the cache of sent messages and the retry receipts |

Results about the code that the proofs turned up:

- A string of digits that are not all ASCII is packed as if they were: `"1²"` comes back as `"92"`. Round
  trips hold exactly for *clean* strings, in which nothing that is packed is beyond ASCII.
- Normalising a node is not idempotent: the text content `":0@lid"` comes back as the text `"@lid"`, and
  that as bytes. A second normalisation changes something exactly when some text content is an address
  with device 0 and no user whose printed form is no token.
- Some strings cannot be encoded: on `"a_b@x"` the encoder raises, because the agent is no integer. A
  string can be encoded exactly when its packed digits fit, the agents and devices in it that are looked at are
  integers, and those that are written fit a byte.
- A REMOVE patch never leaves a follower in its author's state; every other operation does. Over a log the two are
  equal again exactly when every REMOVE has been followed by another change of its key; a follower that validates
  must also not have stopped before, at a snapshot MAC that gave the missed REMOVE away.
- A transport payload whose frame would need 2^24 bytes moves the write counter and then raises, and the
  two ends never come back into step. A run stays in step exactly when no such payload is sent while the
  counter is not used up.
- Credentials that hold a pre-key but no `next_pre_key_id` lose it: the first accepted upload draws key 1 anew. A
  stored key that is not used up stays the same exactly when its id is below the next id that the run started
  from, or has not been passed by it yet.
- When a chunk of transport bytes holds a frame that cannot be decrypted, the frames before it are not handed out
  and stay in the buffer, although the read counter has passed them.
- If the very first handshake payload is too large for a frame, the intro header is never sent.
- The cache of sent messages differs from a plain log of saves exactly when an entry was purged by a clock
  that has since gone back to before its expiry.
- Normalising an address is not idempotent on addresses with two colons or with nothing before the device:
  `":5@x"` becomes `"@x"`, which is refused.
- Delivering a batch of messages again changes no message, chat or contact exactly when every stored
  message of it has an id, and nothing at all exactly when moreover none of them is a reaction.

## Model

| member | source | states |
|---|---|---|
| TokenTables.LoadTokens | src/baileys/token_loader.py:16-38 | the two loops map every non-empty token to the last place where it stands, and map nothing else |
| TokenTables.LastPlacesUnique | src/baileys/token_loader.py:27-35 | the tables leave no choice: any two maps with that property are equal |
| WABinaryEncoder.Encoder.WriteListStart | src/baileys/wabinary.py:78-85 | appends the list header for the size, or raises beyond 16 bits; nothing before it changes |
| WABinaryEncoder.Encoder.WriteByteLength | src/baileys/wabinary.py:88-98 | appends the shortest of the three length forms, or raises at 2^32 |
| WABinaryEncoder.Encoder.WritePackedBytes | src/baileys/wabinary.py:177-188 | appends tag, length byte with the odd flag, and two characters to a byte, or raises what a pair raises |
| WABinaryEncoder.Encoder.WriteString | src/baileys/wabinary.py:101-142 | appends the bytes of the one form that the order of the branches chooses, recursively for addresses, or raises their first exception |
| WABinaryEncoder.Encoder.WriteNode | src/baileys/wabinary.py:50-75 | appends header, tag, attributes with a value, and content of a whole tree, or raises the first exception |
| WABinaryEncoder.Encode | src/baileys/wabinary.py:39-42 | the fresh buffer holds the stream prefix, if asked for, and then exactly the node |
| WABinaryDecoder.ReadTagged | src/baileys/wabinary.py:282-334 | on any bytes: a string or an error, and a string uses up at least one byte |
| WABinaryDecoder.ReadNode | src/baileys/wabinary.py:229-252 | on any bytes: a node or an error, and a node uses up at least one byte |
| WABinaryDecoder.InteropServer | src/baileys/wabinary.py:323-334 | rewinding the cursor in the interop branch never gives back more than was there before it |
| WABinaryDecoder.Decoder.NextString | src/baileys/wabinary.py:282-334 | the cursor stays inside the data, never goes back overall, and stands where the reading function says |
| WABinaryDecoder.Decoder.NextPacked | src/baileys/wabinary.py:336-345 | the packed characters, without the last one when the odd flag is set, or the error of a nibble |
| WABinaryDecoder.Decoder.NextNode | src/baileys/wabinary.py:229-252 | terminates with a node or an error, inside the data, past at least one byte on success |
| WABinaryDecoder.Decode | src/baileys/wabinary.py:45-47 | the node at the front of the data after the prefix; bytes after it are ignored |
| WABinary.BitOrNibble | src/baileys/wabinary.py:177-188 | or-ing a nibble under a shifted one only adds it |
| WABinaryRoundTrip.ListStartBack | src/baileys/wabinary.py:78-85 | every list header is read back with its size and stops at the suffix |
| WABinaryRoundTrip.ByteLengthBack | src/baileys/wabinary.py:88-98 | every length is read back, in each of the three forms |
| WABinaryRoundTrip.PackedBack | src/baileys/wabinary.py:336-362 | unpacking inverts packing for every odd and even length up to 127 |
| WABinaryRoundTrip.PackedText | src/baileys/wabinary.py:336-362 | whatever was packed, reading it takes exactly its bytes and yields ASCII |
| WABinaryRoundTrip.TokenBack | src/baileys/wabinary.py:107-114 | a token from the map is read back as itself, for single-byte and double-byte tokens |
| WABinaryRoundTrip.StringRoundTrip | src/baileys/wabinary.py:101-142 | whichever form is chosen, at any depth of nested addresses, the string is read back as its normal form and the reading stops at the suffix, if and only if the string is clean |
| WABinaryRoundTrip.NodeRoundTrip | src/baileys/wabinary.py:50-75 | a clean tree, followed by any bytes, is read back as its normal form and the reading stops at those bytes |
| WABinaryRoundTrip.DecodeEncode | src/baileys/wabinary.py:39-47 | decoding the encoding, with or without the stream prefix, gives the normal form |
| WABinaryExact.NodeRoundTripExact | src/baileys/wabinary.py:229-252 | when keys stay distinct after normalisation, the round trip holds if and only if the tree is clean; a wrong reading still stops at the suffix |
| WABinaryExact.AttrsExact | src/baileys/wabinary.py:60-62 | the same for the attributes of one node |
| WABinaryNormal.NormIdempotent | src/baileys/wabinary.py:191-221 | normalising twice is normalising once, at any depth of nested addresses |
| WABinaryNormal.NormIdentity | src/baileys/wabinary.py:306-315 | a string is its own normal form exactly when every address with a device in it is canonical: no agent, no device 0, no padding, a server that stands for its domain type |
| WABinaryNormal.NodeIdentity | src/baileys/wabinary.py:229-252 | a tree is its own normal form exactly when it is canonical at every level |
| WABinaryNormal.CanonicalRoundTrip | src/baileys/wabinary.py:39-47 | clean canonical trees come back unchanged |
| WABinaryNormal.SuperscriptDigit | src/baileys/wabinary.py:145-162 | the witness that digits beyond ASCII are lost |
| WABinaryTwice.TextNormTwice | src/baileys/wabinary.py:247-250 | normalising text content a second time changes nothing exactly when the text is not an address with device 0 and no user whose printed form is no token |
| WABinaryTwice.AttrsNormTwice | src/baileys/wabinary.py:235-240 | normalising attributes a second time changes nothing |
| WABinaryTwice.NodeNormTwice | src/baileys/wabinary.py:229-252 | normalising an encodable tree a second time changes nothing exactly when no text content in it is such an address |
| WABinaryTwice.TextTwice | src/baileys/wabinary.py:247-250 | the witness outside that condition |
| WABinaryEncodable.EncodableExact | src/baileys/wabinary.py:101-221 | a string is encoded exactly when it is a token, or its packed digits fit, or it is an address whose device and agent, where they are looked at, are integers, with a device and a domain type that fit a byte if it has a device, and with parts that can be encoded, or it is other text below 2^32 bytes |
| WABinaryEncodable.NodeExactly | src/baileys/wabinary.py:50-75 | a tree is encoded exactly when it has a tag, no list of 2^16 items and only such strings, at every level |
| WABinaryEncodable.CodecExact | src/baileys/wabinary.py:39-47 | by conditions on the tree alone: with keys that stay distinct, encoding and decoding succeed with the normal form exactly for clean trees that can be encoded |
| WABinaryEncodable.AgentRaises | src/baileys/wabinary.py:191-221 | the witness of an address on which the encoder raises |
| WABinaryForms.ListStartShortest | src/baileys/wabinary.py:78-85 | whatever is read as a list size can be written as one, and no header that is read as it is shorter than the written one |
| WABinaryForms.ByteLengthShortest | src/baileys/wabinary.py:88-98 | the same for lengths; the written three-byte length spells its number without using the bits that a reader ignores |
| WABinaryForms.TokenWritten | src/baileys/wabinary.py:106-113 | a token is one byte or two, which name its place in the tables |
| WABinaryForms.PackedWritten | src/baileys/wabinary.py:145-188 | texts of digits with `-` and `.`, or with `A` to `F`: 255 or 251, the number of bytes with the odd flag, and the codes of the characters, two to a byte |
| WABinaryForms.AdJidWritten | src/baileys/wabinary.py:191-212 | an address with a device: 247, domain type, device, and the user without its agent; refused exactly for numbers that are none or do not fit |
| WABinaryForms.JidPairWritten | src/baileys/wabinary.py:133-139 | an address without a device: 250, user and server |
| WABinaryForms.PlainWritten | src/baileys/wabinary.py:140-142 | every other text: 252, 253 or 254 with its length in one, three or four bytes, and its UTF-8 |
| WABinaryForms.AdJidRead | src/baileys/wabinary.py:306-315 | for every domain type and device, the text that such an address is read as |
| WABinaryForms.FbRead | src/baileys/wabinary.py:316-320 | the text of an FB address |
| WABinaryForms.InteropRead | src/baileys/wabinary.py:321-332 | the text of an interop address; without a readable server it is `interop`, and the bytes there are left for what follows |
| WABinaryForms.EmptyRead | src/baileys/wabinary.py:293-294 | the empty list is read as the empty text |
| WABinaryForms.PackedRead | src/baileys/wabinary.py:336-362 | every packed byte of both kinds: its two characters, or the refusal of a nibble from 12 to 14 |
| WABinaryForms.PresentJoin | src/baileys/wabinary.py:54 | leaving out attributes without a value goes through the whole list |
| WABinaryForms.NodeWritten | src/baileys/wabinary.py:50-75 | the bytes of a node with one attribute that has a value, one that has none, and any content |
| WABinaryForms.ContentWritten | src/baileys/wabinary.py:64-71 | the bytes of each kind of content |
| LtHash.ApplyInPlace | src/baileys/app_state.py:710-717 | overwriting the buffer two bytes at a time is adding or subtracting lane by lane modulo 65536 |
| LtHash.SubtractThenAddBytes | src/baileys/app_state.py:699-707 | subtracts one list and adds the other; refuses a base that is not 128 bytes |
| LtHash.SubtractUndoesAdd | src/baileys/app_state.py:699-717 | subtraction undoes addition of an item and the other way round |
| LtHash.SubtractThenAddOrder | src/baileys/app_state.py:699-707 | the order of the two lists makes no difference |
| LtHash.HashSet | src/baileys/app_state.py:776-788 | setting a key, fresh or not, keeps the hash the sum over the map |
| LtHash.HashRemove | src/baileys/app_state.py:776-788 | taking out a key keeps the hash the sum over the map |
| LtHash.HashDetermined | src/baileys/app_state.py:710-717 | a map has one hash |
| AppState.LtHashState.Mix | src/baileys/app_state.py:776-788 | the object is updated as the mixing step says, or an exception is raised |
| AppState.EncodeSyncdPatch | src/baileys/app_state.py:320-362 | the author's patch and new state; the old state object is not touched |
| AppState.DecodeSyncdMutations | src/baileys/app_state.py:365-428 | record by record on a copy, with the skips, the exceptions and the key cache, which changes nothing |
| AppStateSync.DecodeSyncdSnapshot | src/baileys/app_state.py:431-465 | the state built up from nothing and the verdict on the snapshot MAC |
| AppStateSync.DecodeSyncdPatch | src/baileys/app_state.py:468-527 | the state after a patch, its news and MAC verdicts; the old state object is not touched |
| AppStateSync.ApplyAppStateSync | src/baileys/app_state.py:530-584 | the stored state of the collection is replaced when the sync ends; when an exception escapes nothing is stored |
| AppStateSync.JsonRoundTrip | src/baileys/app_state.py:43-63 | a stored state is loaded again as it was |
| AppStateSync.LoadExact | src/baileys/app_state.py:43-56 | when loading a stored state raises, and what is loaded from missing and empty fields |
| AppStateReplication.MixConsistent | src/baileys/app_state.py:776-788 | mixing never fails on a consistent state, keeps it consistent, and touches one key |
| AppStateReplication.AuthorConsistent | src/baileys/app_state.py:342-346 | the author's update never fails on a consistent state, counts the version up, and keeps it consistent |
| AppStateReplication.DecodeConsistent | src/baileys/app_state.py:365-428 | after any run of mutations, fresh, overwriting, removing, absent or skipped, the hash is the lane-wise sum of exactly the value MACs in the map |
| AppStateReplication.DecodeJoin | src/baileys/app_state.py:380-428 | decoding goes through the whole list from one state to the next, and tells the news of all of it, in order |
| AppStateReplication.SnapshotBuilds | src/baileys/app_state.py:431-457 | a snapshot is built up from an empty state by setting each of its records, in order |
| AppStateReplication.SyncConsistent | src/baileys/app_state.py:530-584 | only consistent states are stored, and they load as they were stored |
| AppStateSync.AppStatePatch | src/baileys/app_state.py:277-294 | a patch of one's own: the stored state of its collection becomes the author's new one, or nothing is stored |
| AppStateRoutes.RouteConsistent | src/baileys/app_state.py:277-584 | over any run of syncs, patches of one's own (accepted or not) and shared keys, every stored state stays consistent |
| AppStateRoutes.RoutesAgree | src/baileys/app_state.py:277-584 | two such runs, from any consistent books, whose stored states have the same map have the same hash |
| AppStateReplication.FailingPatchIsNoStep | src/baileys/app_state.py:556-570 | a patch that raises anything but a missing key can be dropped from the sync without changing its result |
| AppStateReplication.MixAsAuthor | src/baileys/app_state.py:342-346 | the follower's step equals the author's exactly when the operation is not REMOVE |
| AppStateReplication.FollowerAgrees | src/baileys/app_state.py:320-362 | from the author's old state the follower accepts the patch with its MACs valid, is told the original index and action, and lands in the author's new state, exactly when the operation is not REMOVE |
| AppStateLog.FollowsAny | src/baileys/app_state.py:530-584 | a follower of any log, from its author's consistent state, with or without versions in the patches: no patch is refused, every change is mixed in up to the first snapshot MAC that differs, and it is told, in order, every one of those beyond the minimum version it asked for |
| AppStateLog.SettledExact | src/baileys/app_state.py:342-346 | mixing in a log gives the author's state exactly when every REMOVE in it is followed by another change of its key |
| AppStateLog.FollowsLogExact | src/baileys/app_state.py:530-584 | after any number of patches the follower is where its author is exactly when the log so far is settled in that sense and no earlier snapshot MAC made it stop |
| AppStateLog.FollowsLog | src/baileys/app_state.py:530-584 | so for a log without REMOVE it equals its author after every patch and is told every such change, whether or not the state it started from was consistent |
| AppStateLog.OwnLog | src/baileys/app_state.py:277-294 | patches of one's own written one after the other are the author's log; what is stored loads as the author's state and other collections stay as they are |
| AppStateLog.NoKeyNoPatch | src/baileys/app_state.py:283-289 | without a key id or without its key none is written |
| AppStateMacs.PatchExact | src/baileys/app_state.py:492-501 | with validation on, a patch without its key ends in the missing-key error, and one whose patch MAC is not the HMAC over snapshot MAC, value MACs, version and name is refused |
| AppStateMacs.PatchRefused | src/baileys/app_state.py:556-570 | in a sync such a patch changes nothing at all |
| AppStateMacs.NothingValidated | src/baileys/app_state.py:492-517 | without validation neither MAC of a patch nor the key it names makes a difference |
| AppStateMacs.PatchVerdict | src/baileys/app_state.py:512-517 | the verdict on the snapshot MAC is whether it is the HMAC of the state decoded; the sync keeps that state and stops exactly when it is not |
| AppStateMacs.SnapshotVerdict | src/baileys/app_state.py:459-463 | the same verdict for a snapshot |
| AppStateMacs.RecordExact | src/baileys/app_state.py:380-426 | a record with another value MAC, or one that cannot be opened, is passed over, one with another index MAC raises, and every other is mixed in and told |
| AppStateMacs.RecordSkipped | src/baileys/app_state.py:380-392 | incomplete records are passed over, one whose key is missing ends the decoding |
| AppStateMacs.ValueMacsJoin | src/baileys/app_state.py:496 | the value MACs of a patch are taken in order |
| AppStateMacs.ExternalLast | src/baileys/app_state.py:480-486 | mutations kept outside a patch count as if they stood at its end |
| AppStateMacs.AuthorWrites | src/baileys/app_state.py:320-362 | the author's patch: one mutation with the encrypted action, and its three MACs and the index written out as HMACs of the new state |
| Noise.NoiseHandshake.Create | src/baileys/noise.py:66-79 | the opening state, with the header and the ephemeral key authenticated into the protocol name, or the exception for routing info that is too large |
| Noise.IntroHeaderTells | src/baileys/noise.py:51-63 | the intro carries the routing info behind its length, and no two routing infos have the same intro |
| Noise.TransportState.EncryptBytes | src/baileys/noise.py:31-34 | encrypts under the write counter and moves it; raises and changes nothing beyond 32 bits |
| Noise.TransportState.DecryptBytes | src/baileys/noise.py:36-39 | decrypts under the read counter and moves it only on success |
| Noise.NoiseHandshake.MixIntoKeyBytes | src/baileys/noise.py:88-93 | new salt, one key for both directions, counter back to zero |
| Noise.NoiseHandshake.EncryptBytes | src/baileys/noise.py:95-101 | the transport cipher once there is one, before that the handshake cipher with the ciphertext authenticated |
| Noise.NoiseHandshake.DecryptBytes | src/baileys/noise.py:103-109 | the same for decryption; nothing changes on a bad tag |
| Noise.NoiseHandshake.EncodeFrameBytes | src/baileys/noise.py:116-121 | the intro once, the length in three bytes, the body; what is left behind when the length does not fit |
| Noise.NoiseHandshake.FinishInit | src/baileys/noise.py:123-125 | a fresh transport with both counters at zero |
| Noise.NoiseHandshake.DecodeFrames | src/baileys/noise.py:127-141 | decrypts every complete frame of the buffer in order and keeps the rest; on a failure it keeps everything |
| Noise.NextFrame | src/baileys/noise.py:130-139 | the index of the loop passes one complete frame at a time and stops exactly at the first incomplete one |
| NoiseProtocol.HandshakeAgreement | src/baileys/noise.py:81-109 | two states that agree still agree after any sequence of authenticate, mix and exchange in either direction, with every plaintext recovered and one key for both directions |
| NoiseProtocol.SplitPrefix | src/baileys/noise.py:127-141 | cut a stream of frames anywhere: the front gives the first so many bodies and what it leaves, joined to the back, is the stream of the others |
| NoiseProtocol.SendInStep | src/baileys/noise.py:116-121 | a send keeps the two ends in step exactly when its frame fits in 24 bits or the counter is used up |
| NoiseProtocol.DeliverInStep | src/baileys/noise.py:127-141 | any chunk of any size keeps the two ends in step |
| NoiseProtocol.AheadStays | src/baileys/noise.py:116-141 | a party that has counted more frames than it sent stays ahead under every send and delivery |
| NoiseProtocol.RunInStep | src/baileys/noise.py:116-141 | for every interleaving of sends both ways and every cut into chunks: the two ends are in step exactly when every send fitted or came when its counter was used up; then what was received is a prefix of what was sent, the read counters count it, no buffer holds a complete frame |
| NoiseProtocol.OutOfStepForGood | src/baileys/noise.py:116-141 | ends that are out of step never come back into step |
| NoiseProtocol.AllArrived | src/baileys/noise.py:127-141 | once every byte has arrived, everything sent has been received |
| NoiseProtocol.TransportStarts | src/baileys/noise.py:123-125 | parties that agree at the end of the handshake, one of them with the two derived keys swapped, begin in step |
| NoiseProtocol.WholeSession | src/baileys/noise.py:66-141 | any handshake steps from agreeing states, then any run that stays in step: each party is handed a prefix of what the other sent, and all of it once nothing is on its way |
| NoiseWire.IvIsNonce | src/baileys/noise.py:47-48 | the vector is eight zeros and the counter in four bytes |
| NoiseWire.NoncesDiffer | src/baileys/noise.py:47-48 | two vectors are equal exactly when their counters are |
| NoiseWire.FramesNumbered | src/baileys/noise.py:31-34 | over every run that stays in step, what a party writes splits into one frame for each payload, and the k-th it ever sent is encrypted under the vector with the number k |
| NoiseWire.NoVectorTwice | src/baileys/noise.py:31-34 | no two frames of one direction share a vector |
| NoiseWire.HandshakeRecord | src/baileys/noise.py:81-109 | over any acts of a handshake the hash is the chain over everything authenticated and every ciphertext, salt and key follow the secrets mixed in, and the counter counts the ciphertexts since |
| NoiseWire.WholeRecord | src/baileys/noise.py:66-79 | the same from a new object on: name, header and ephemeral key come first |
| NoiseWire.SealedUnder | src/baileys/noise.py:95-101 | the next ciphertext is under that key, that counter's vector and that hash |
| NoiseWire.OpenedUnder | src/baileys/noise.py:103-109 | and so is the next decryption |
| NoiseWire.SessionEncrypts | src/baileys/noise.py:95-101 | which cipher a session encrypts with, and the only counter that moves |
| NoiseWire.SessionDecrypts | src/baileys/noise.py:103-109 | the same for decryption |
| NoiseWire.IntroOnce | src/baileys/noise.py:111-121 | the intro stands once, before the first frame, unless the first payload is too large: then it never comes |
| NoiseWire.IntroRefused | src/baileys/noise.py:51-55 | routing info is refused exactly when its length does not fit three bytes |
| NoiseWire.DecodeExact | src/baileys/noise.py:127-141 | any bytes at all: the plaintexts of all complete frames and the bytes after them, or, at the first frame that cannot be read, nothing, every byte kept, and the counter behind the frames before it |
| Varint.DecodeVarint | src/baileys/reporting.py:153-166 | the value and the end of a varint of at most six bytes, or nothing |
| Varint.EncodeVarint | src/baileys/reporting.py:169-176 | the varint of the low 32 bits |
| Varint.VarintRoundTrip | src/baileys/reporting.py:153-176 | decoding inverts encoding below 2^32, whatever follows |
| Varint.VarintShortest | src/baileys/reporting.py:169-176 | no varint of a value is shorter than the encoded one |
| Reporting.ExtractContent | src/baileys/reporting.py:97-150 | the loop over records, recursive on nested messages, refuses or returns the kept records sorted by number |
| Reporting.ReadRecord | src/baileys/reporting.py:101-146 | one turn of the loop depends on the bytes from the cursor on only |
| ReportingCanonical.SortSpec | src/baileys/reporting.py:148-150 | the sort orders by number, adds and drops nothing, and keeps records of one number in order |
| ReportingCanonical.PiecesConcat | src/baileys/reporting.py:97-150 | accepted bytes followed by others: first the kept records of the one, then those of the other |
| ReportingCanonical.ExtractShortens | src/baileys/reporting.py:97-150 | the result is never longer than the input |
| ReportingCanonical.ExtractIdempotent | src/baileys/reporting.py:97-150 | extracting from a result gives it back, when the nested fields have numbers below 2^29 and the input is below 2^32 bytes |
| ReportingCanonical.SwapRecords | src/baileys/reporting.py:97-150 | swapping neighbouring records with different numbers changes nothing |
| ReportingCanonical.UnlistedRecord | src/baileys/reporting.py:97-150 | inserting a complete record whose number is not listed changes nothing |
| ReportingCanonical.NestedRecord | src/baileys/reporting.py:120-139 | a nested message is treated by its tag and content alone, whatever accepted header, padded or not, announces it |
| ReportingCanonical.AtAnyDepth | src/baileys/reporting.py:120-139 | contents with the same extraction may be exchanged at any nesting level, under headers spelt differently on the two sides |
| ReportingCanonical.SpellingAside | src/baileys/reporting.py:120-139 | how the headers around a place are spelt makes no difference |
| ReportingCanonical.SwapAnywhere | src/baileys/reporting.py:97-150 | the swap, at any nesting level of accepted headers of any spelling |
| ReportingCanonical.UnlistedAnywhere | src/baileys/reporting.py:97-150 | the insertion, at any nesting level of accepted headers of any spelling |
| ReportingTree.LookupLast | src/baileys/reporting.py:87-89 | the last field with a number is the one that counts |
| ReportingTree.AcceptedWhole | src/baileys/reporting.py:101-146 | every record that is accepted is of one of the four wire types and has exactly the bytes that the type asks for |
| ReportingTree.LeafKept | src/baileys/reporting.py:109-146 | such a record that is no nested message is accepted, and kept byte for byte exactly when its number is listed |
| ReportingTree.LeafStays | src/baileys/reporting.py:140-150 | it stands between what is kept of its number before it and after it; alone it is the whole result |
| ReportingTree.TreeReduced | src/baileys/reporting.py:97-150 | extraction is the reduction of the message's tree of records by the allow-list, sorted by number at every level |
| ReportingTree.ExtractExact | src/baileys/reporting.py:97-150 | a message is accepted exactly when it spells such a tree |
| ReportingTree.TwoBytes | src/baileys/reporting.py:140-150 | an example of one record, listed and not |
| WamRecord.Serialize | src/baileys/wam.py:99-130 | what the branches write is read back as the same record, whatever follows, and nothing shorter is read as it; an exception exactly for keys beyond 16 bits, nulls outside globals and text beyond 32 bits |
| WamRecord.SerializeHeader | src/baileys/wam.py:133-138 | flag, type and key, or an exception |
| WamRecord.RecordShortest | src/baileys/wam.py:99-138 | every form is the smallest: no bytes read as a record are shorter than those it is written with |
| Wam.Encode | src/baileys/wam.py:46-78 | header, then for every event its globals, its own record and its fields with their flags; an exception for unknown names and values |
| WamRecord.RecordBack | src/baileys/wam.py:99-138 | a parser reads every record back, booleans as 0 and 1, whatever follows |
| WamInjective.RecordsInjective | src/baileys/wam.py:99-138 | the bytes of a list of records determine the records |
| WamInjective.FirstEvent | src/baileys/wam.py:60-76 | although event records and inner fields share a flag, the records determine the first event and what follows it |
| WamInjective.EncodingExact | src/baileys/wam.py:46-78 | with distinct ids, two infos encode alike exactly when they have the same header, events, globals and properties in order, booleans read as 0 and 1 |
| WamBuffer.BufferReads | src/baileys/wam.py:46-78 | a buffer opens with `WAM`, version, 1, sequence and 0, and then reads as, event by event, the globals, the id with the negated weight and its flag, and the properties with theirs, and nothing else |
| WamBuffer.EncodesExactly | src/baileys/wam.py:46-138 | an exception is raised exactly for a version or sequence number that does not fit, an unknown name, a key beyond 16 bits, a null outside globals, or text beyond 32 bits |
| WamBuffer.WeightTells | src/baileys/wam.py:65-69 | specs that differ in the weight of an event that occurs give different bytes |
| WamBuffer.OneEvent | src/baileys/wam.py:46-78 | the bytes of one event |
| PairingCode.BytesToCrockford | src/baileys/pairing_code.py:67-79 | the text spells the bits of the input in order, five to a symbol, zeros at the end; its length is the input's bits over five, rounded up |
| PairingCode.SpellsUnique | src/baileys/pairing_code.py:67-79 | a text spells one input and an input has one text |
| PairingCode.FiveBytes | src/baileys/pairing_code.py:67-79 | five bytes are eight symbols without padding |
| Jid.DecodeEncode | src/baileys/jid.py:34-93 | parsing a printed address gives back user, agent, device, integrator and server exactly when its parts are separable; all combinations of missing parts, zero and negative numbers included |
| Jid.EncodeDecode | src/baileys/jid.py:34-93 | printing a parsed address gives back the text exactly when its numbers are plain and its device is not zero |
| Jid.NormaliseTwice | src/baileys/jid.py:96-99 | normalising again changes nothing exactly when there is at most one colon on the left with something before it; the result is then the same address without its device |
| Jid.NormaliseTwiceFails | src/baileys/jid.py:96-99 | the two witnesses outside that condition |
| Jid.DomainTypes | src/baileys/jid.py:177-186 | the domain type of every parsed address |
| Jid.NormalisedParts | src/baileys/jid.py:96-99 | the normalised address is the same one without its device, and at `s.whatsapp.net` if it was at `c.us` |
| PreKeys.Credentials.GenerateOrGetPreKeys | src/baileys/prekeys.py:89-107 | the ids to upload, the ids generated, and the whole new pool, with defaults for missing fields and any count |
| PreKeys.Credentials.BuildUpload | src/baileys/prekeys.py:110-115 | the batch, or the error that lists exactly the ids without a key |
| PreKeys.Client.UploadPreKeys | src/baileys/socket.py:2855-2881 | the copy replaces the credentials only after an answer to one of the attempts; a failed upload leaves them as they were |
| PreKeys.MissingExactly | src/baileys/prekeys.py:113-115 | a key is missing exactly when one of the ids taken from the stock has none |
| PreKeys.UploadStocked | src/baileys/socket.py:2855-2881 | when every id from the first-unuploaded mark up to the next id has its key, the missing-key error is unreachable, every id of a batch has its key, and the credentials stay so |
| PreKeys.UploadMarks | src/baileys/prekeys.py:89-107 | on any credentials: the marks never go back, the batch is what the first mark passes, and a stored key changes only where the next id passes it |
| PreKeys.StaysStocked | src/baileys/socket.py:2855-2881 | over any run in which only uploaded keys are used up, stocked credentials stay stocked |
| PreKeys.BatchesContiguous | src/baileys/prekeys.py:89-107 | over any run from any credentials the committed batches joined together are exactly the ids that the first-unuploaded mark has passed, and the mark does not overtake the next id |
| PreKeys.BatchesAscend | src/baileys/prekeys.py:104-106 | over any run from any credentials batches ascend and no id is in two of them |
| PreKeys.KeyKept | src/baileys/prekeys.py:99-102 | over any run from any credentials a stored key that is not used up is still stored; it is the same one exactly when its id was below the next id at the start or is not passed by it at the end |
| PreKeys.KeyReplaced | src/baileys/auth_store.py:144-170 | the witness: credentials with key 1 and no next id, and one accepted upload |
| PreKeys.UploadExact | src/baileys/prekeys.py:89-115 | one upload on any credentials: exactly the ids that are missing, or the ids uploaded, the new keys and both marks |
| PreKeys.UsedUpGone | src/baileys/prekeys.py:99-102 | a key that was used up never comes back, if its id was passed before the run |
| Store.FindMessage | src/baileys/store.py:199-203 | whether a message with the same non-empty id is in the bucket |
| Store.InMemoryStore.ApplyMessagesUpsert | src/baileys/store.py:67-111 | the buckets, chats, contacts and reactions after a batch, message by message, and the lists of what changed |
| Store.InMemoryStore.ApplyMessagesUpdate | src/baileys/store.py:113-125 | the chats and the log of updates after a list of updates, and the chats that changed; buckets and contacts do not change |
| Store.InMemoryStore.ApplyHistorySync | src/baileys/store.py:139-185 | the buckets, chats and contacts after a history sync, and the lists of what changed |
| StoreRuns.BucketIsFirsts | src/baileys/store.py:74-77 | after any run a bucket holds exactly the messages carried to its chat, each when first seen, in order |
| StoreRuns.UnreadAccounting | src/baileys/store.py:88-89 | after any run an unread count is the value of its last reset plus the first-seen messages of others that were notified since |
| StoreRuns.DistinctIds | src/baileys/store.py:199-203 | no run puts a non-empty id into a bucket twice |
| StoreRuns.RedeliveryExact | src/baileys/store.py:67-111 | delivering a batch again changes no message, chat or contact exactly when every stored message has an id |
| StoreRuns.RedeliveryChangesNothing | src/baileys/store.py:67-111 | it changes nothing at all exactly when moreover no stored message is a reaction |
| StoreRuns.LaterRedelivery | src/baileys/store.py:67-111 | however much later a batch with ids comes again, it adds no message and counts nothing as unread |
| StoreRuns.ReactionsKept | src/baileys/store.py:105-109 | every delivered reaction is kept under the message it is for, in order, and again when delivered again |
| StoreRuns.UpdatesMerged | src/baileys/store.py:116-118 | the log of updates holds, for every message and field, what the last update that names it said |
| StoreRuns.UnlistedUnchanged | src/baileys/store.py:67-185 | no change goes untold: a chat or contact that a call does not return is as it was, and none is returned twice |
| StoreBooks.ChatName | src/baileys/store.py:86-87 | over any run a chat has the name of the last history sync that names it, else the one it had, else the first push name delivered to it |
| StoreBooks.ChatTime | src/baileys/store.py:83-85 | its time is the latest of those given since the last history sync that set it |
| StoreBooks.ContactNames | src/baileys/store.py:92-103 | contacts are named in the same way, and their notify name is the last push name of messages and syncs |
| StoreBooks.WhoIsThere | src/baileys/store.py:67-185 | chats and contacts come from exactly these acts, and none is taken away |
| StoreBooks.ReadResets | src/baileys/store.py:119-124 | exactly a status of 3 or more for a message of others sets the unread count to zero |
| StoreBooks.ListedTouched | src/baileys/store.py:67-185 | a call returns exactly the chats and contacts that one of its items touched |
| StoreBooks.HistoryFiled | src/baileys/store.py:139-185 | after a history sync everything in it is there |
| StoreBooks.InfoFields | src/baileys/store.py:166-180 | the message made of a history item: empty texts and the time 0 count as missing |
| StoreBooks.FiledUnder | src/baileys/store.py:206-209 | reactions and updates are filed under chat, id and participant |
| StoreBooks.ReactionFields | src/baileys/store.py:212-238 | the reaction inside a message, with its fallbacks to the message's own key |
| Replay.InMemoryReplayStore.LoadRecentOutbound | src/baileys/replay.py:45-52 | the node of an entry that has not expired; an expired one is dropped |
| Replay.InMemoryReplayStore.DeleteRecentOutbound | src/baileys/replay.py:54-55 | the entry of the id goes, if there is one, and no other |
| Replay.InMemoryReplayStore.PruneExpired | src/baileys/replay.py:57-62 | exactly the expired entries go, and their number is returned |
| Replay.Client.SaveRecentOutbound | src/baileys/socket.py:2498-2503 | both caches get the node, with its time of expiry; an empty id is ignored |
| Replay.Client.LoadRecentOutbound | src/baileys/socket.py:2505-2511 | the store's answer, and the second cache brought into line with it |
| Replay.Client.ResendMessageForRetry | src/baileys/socket.py:2489-2496 | what goes out, or the exception of the connection |
| Replay.Client.DispatchRetryReceiptNode | src/baileys/socket.py:2451-2487 | the retry count, the outcome with its reason and session bundle, the committed credentials, and the new state, in every branch |
| Replay.HoldsLastSave | src/baileys/replay.py:36-62 | under any clock the store holds the last save of an id exactly as long as it was neither deleted nor purged after its expiry |
| Replay.RecentIsLastSaved | src/baileys/socket.py:2498-2511 | the second cache never holds another node than the one last saved, and holds every node that the store holds |
| Replay.RecentExact | src/baileys/socket.py:2498-2511 | the second cache holds exactly the ids that were saved after, or found by, their last look-up |
| Replay.LoadIsPlain | src/baileys/replay.py:45-62 | under any clock, the lazily purged cache answers as a plain log of saves exactly when the entry was not purged by a clock that has since gone back to before its expiry |
| Replay.TickingIsPlain | src/baileys/replay.py:45-62 | a clock that does not go back is enough |
| Replay.DispatchAsExpected | src/baileys/socket.py:2451-2496 | a receipt is answered as its number and the plain log alone decide, exactly outside the same case |
| Replay.CommitsEverySession | src/baileys/socket.py:2451-2487 | over any run the credentials saved last are those of the last receipt that names its participant and brings a session, whether it was answered, refused or its resend raised |
| Replay.ResendsBounded | src/baileys/socket.py:2554-2558 | each message is resent to each participant at most the configured number of times, whatever the clock does |
| Replay.ClockBack | src/baileys/replay.py:57-62 | the witness inside that case |

## Left out

- NodeRoundTrip: one direction; NodeRoundTripExact has both, for nodes whose keys stay distinct, because a value that a later attribute overwrites may be unclean without harm.
- ExtractIdempotent: for nested fields with numbers below 2^29 and inputs below 2^32 bytes, because `_encode_varint` keeps 32 bits only.
- NormaliseTwice: takes for granted, as NormalisedParts does, that `int()` of a run of digits is not negative, since what it makes of digits beyond ASCII is a parameter.
- UploadStocked: from credentials in which every id from the first-unuploaded mark up to the next id has its key, as those without pre-key fields are; MissingExactly covers the others.
- AppStateLog.FollowsLogExact: from a consistent state, as SyncConsistent and RouteConsistent show every stored state to be; FollowsLog starts from any.
- UnreadAccounting: from an empty store, with no other writer; DistinctIds, RedeliveryExact and LaterRedelivery start from any state.
- What a retry receipt's session bundle does to the credentials is a parameter: building the session is a call into the Signal library.
- Cryptography, protobuf, JSON, base64 and UTF-8 are parameters with laws; lone surrogates, which UTF-8 refuses, are left out with them.
- Bit masks, shifts and ors of disjoint parts are written as remainders, quotients and sums; where parts may overlap (packing digits beyond ASCII) the or is modelled bit by bit.
- Recursion depth: Python stops deep trees with RecursionError, the model does not.
- The texts of exceptions; they are told apart only as far as the code itself does.
- Round trips of FB and interop addresses: the encoder never writes them, so they are in the decoder only.
- Floats and integers beyond 32 bits in WAM values: they go through a double.
- The certificate check and the key agreement of the Noise handshake (`process_server_hello`): calls into cryptography; only what they do to the symmetric state is modelled.
- Runs after a failed decryption: DecodeExact says what it leaves behind, the theorems over runs are about authentic streams.
- The receipts of the message store (`apply_message_receipt_update`) and `load_messages`, which touch none of its other books.
- The messages of one chat are a sequence stored in a map, not a list object of their own.
- The SQL stores: their logic is in SQL, and they identify messages differently.
- Concurrency inside `upload_pre_keys` and `dispatch_retry_receipt_node`: each is one atomic step, as are the steps of the store.
- The other fields of the pre-key upload node.
- The node builders, attribute parsers, media, events and reconnection: each is settled by reading one branch, or is input and output.
