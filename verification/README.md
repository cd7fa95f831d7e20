# Battle.net server: verified models

The server speaks three old client protocols, federates with other servers, keeps accounts and their
attributes, runs chat channels and carries guests in over bridges. This project models the parts of it
that hold state or transform data without doing I/O, and proves what they are for.

- **Streams and framing** (`streams`, `recv_buf`, `fields`, `framing`, `sessions`, `federation`). A
  resumable decoder is a function from the unread bytes to one step; what a stream decodes to depends on
  its bytes alone, not on the reads they came in. BNCS, MCP and gateway lines are such decoders and have
  exact round trips; the federation link is not quite one, and its exact condition is proved.
- **Logon** (`modular`, `nls`, `nls_binding`). The SRP arithmetic of the WarCraft III logon (RFC 2945, section 3): both
  sides reach one secret by different exponent routes, for any hash, and what is accepted was made from that
  secret or shows two inputs with one hash.
- **Icons** (`tga`, `tga_codec`, `tga_pixels`, `bni`, `pack`, `pack_places`, `png`). A greedy run-length coder, a strict container
  format, stacking and cutting of pictures, and stored deflate (RFC 1950 section 2.2, RFC 1951 section
  3.2.4); the round trips compose into one for whole icon files.
- **Storage** (`text`, `storage`, `storage_answers`, `write_behind`, `write_behind_store`). A write-behind buffer that
  cannot be told from the store behind it, with flushes failing wherever they like.
- **Channels** (`channel`, `channel_roster`, `channel_runs`, `chat_channel`). Operators, heirs, bans and several sessions
  an account, over single steps and over whole runs.
- **Bridges** (`bridge`, `bridge_registry`). Names for bridged people: unforgeable, fitting, distinct,
  and given out from 99 candidates by a registry of two maps that are each other's inverse.
- **Limits** (`counts`, `admission`, `flood`, `keys`, `keys_history`). Connection counts that describe what is open, a
  token bucket with its exact rate, and a key registry that may forget without its being noticed.
- **Game-server link** (`gslink`, `gslink_runs`, `gslink_origins`, `gslink_results`, `gslink_history`). Connections and
  requests as interleaved steps, and what holds in every interleaving.
- **Attributes** (`attr`, `attr_access`). Longest-prefix access rules, and who sees what by default.

Objects that the code updates in place are classes here. Each of their methods is proved to take the
object through a function on values, and the theorems are about those functions and their runs. Beside what they
keep and guarantee, each function is told from outside as well: when it refuses and why, and what it changes and leaves.

Some things one would expect do not hold. Each is shown by a run or an input, and beside it stands the exact
condition under which the thing does hold:

- A federation frame near the size limit can be refused when the next one shares its read
  (`Federation.LargestBodiesCanBeLost`; `DeliveredIffSplitSafe`).
- An attribute put for an account id before it is issued survives the creation in the buffer, but not in
  the store without one (`WriteBehind.UnissuedPutShows`; `RunsAreTransparentIff`).
- A ban can leave a second session of the account in the channel (`ChannelRuns.BannedAccountCanStay`;
  `BannedStayOutThroughoutIff`), and an operator can lose the flag while keeping the role
  (`ChannelRuns.FlagCanBeLost`; `FlagShowsThroughoutIff`).
- Past 98 other people a bridge's fallback name can be somebody else's
  (`BridgeRegistries.FallbackCanClash`; `RunsKeepInverseIff`).
- Releasing or reclassifying a connection that is not open upsets the counts
  (`Admission.StrayReleaseUpsets`, `StrayMoveUpsets`; `RunsDescribeIff`).
- A bucket polled often enough never earns a token (`Flood.PolledEveryNineMs`; `SteadyPollsEarnNothingIff`).
- A key's holder loses it to a release by anybody (`Keys.HeldThroughoutIff`).
- On a clock that goes back a key's pause can be forgotten (`Keys.ForgettingCanShow`; `AnswersAlikeIff`).
- After a replacement the old game server's list can be shown as the new one's
  (`GameServerLinkRuns.ReplacedListCanShow`; `OwnListIsShownIff`), a version-1 game server can be sent a
  lobby request (`OldServerCanGetLobbyRequest`; `VersionsAreRespectedIff`), and a replaced game server can
  answer for its successor (`GameServerLinkOrigins.StrangerCanAnswer`; `RepliesComeFromAskedIff`).

The comments in the code promise more than it does in four places, and the models follow the code:
`buf.rs` bounds the consumed prefix by half the buffer, but not within its first 512 bytes
(`ReceiveBuffer.SmallBufferWastes`; `TightThroughoutIff`); `frame.rs` calls 1 MiB the largest message accepted,
but a frame near it can be refused by the link; `channel.rs` has a ban remove the user, but it removes one session
of the user; and `bridge.rs` calls the remote id unique by definition, but the name derived from it is not. The last
three are in the list above.

## Model

| member | source | states |
|---|---|---|
| ReceiveBuffer.RecvBuf.ExtendFromSlice | crates/bnetcc-proto/src/buf.rs:70-72 | the unread bytes grow by exactly the data given |
| ReceiveBuffer.RecvBuf.Consume | crates/bnetcc-proto/src/buf.rs:78-88 | exactly the first `n` unread bytes go; moving the rest down is invisible, and once the cursor is past 512 bytes fewer than half are dead |
| ReceiveBuffer.TightThroughoutIff | crates/bnetcc-proto/src/buf.rs:70-116 | over any use of a buffer it is never more than twice the unread bytes exactly when no read position is left past the middle, before the end and within the first 512 bytes |
| ReceiveBuffer.MovedOutIff | crates/bnetcc-proto/src/buf.rs:78-88 | what was read is moved out exactly when it is all there is, or 512 bytes and half of it |
| ReceiveBuffer.SmallBufferWastes | crates/bnetcc-proto/src/buf.rs:78-87 | three bytes come in, two are read, and two dead bytes stand for one alive |
| ReceiveBuffer.RecvBuf.WritableTail | crates/bnetcc-proto/src/buf.rs:99-107 | room is made behind the unread bytes, which stay as they are |
| ReceiveBuffer.RecvBuf.Commit | crates/bnetcc-proto/src/buf.rs:110-116 | of a writable tail just the part written stays |
| Fields.FieldIsReadIff | crates/bnetcc-proto/src/buf.rs:149-225 | one field written is read back exactly when, if text, it has no NUL and is within the limit |
| Fields.BodyIsReadIff | crates/bnetcc-proto/src/buf.rs:241-322 | a body written field by field is read back, and what follows untouched, exactly when every field comes through |
| Fields.WireIsLittleEndian | crates/bnetcc-proto/src/buf.rs:259-297 | numbers are written low byte first, and codes with their first character last |
| Fields.TextIsWritten | crates/bnetcc-proto/src/buf.rs:300-305 | text is written character by character without its NULs, and one NUL behind |
| Fields.ReadRefusedIff | crates/bnetcc-proto/src/buf.rs:149-225 | a number or raw bytes are refused for want of bytes alone, text when no NUL comes or it comes past the limit |
| Fields.Reader.Next | crates/bnetcc-proto/src/buf.rs:149-225 | the cursor moves past the field read, and not at all on an error |
| Fields.Reader.Take | crates/bnetcc-proto/src/buf.rs:149-159 | exactly the next bytes asked for, or how many there are |
| Fields.Writer.Put | crates/bnetcc-proto/src/buf.rs:259-305 | the field is appended in its wire form, text without its NULs |
| Streams.ReadsDoNotMatter | crates/bnetcc-proto/src/bncs.rs:65-104 | any resumable decoder yields the same items, rest and first error for every split of a stream into reads |
| Streams.EncodedStream | crates/bnetcc-proto/src/bncs.rs:74-122 | for any resumable decoder, item by item encodings one behind the other drain to the items |
| Framing.BncsIsResumable | crates/bnetcc-proto/src/bncs.rs:74-104 | a frame or an error found in a prefix is the one found in the whole, and a frame takes at least a byte |
| Framing.BncsWireDecodes | crates/bnetcc-proto/src/bncs.rs:74-122 | an encoded frame in front of anything decodes to itself and uses its own bytes |
| Framing.McpIsResumable | crates/bnetcc-proto/src/mcp.rs:77-106 | the same for the length-first header |
| Framing.McpWireDecodes | crates/bnetcc-proto/src/mcp.rs:77-123 | an encoded frame in front of anything decodes to itself |
| Framing.LinesAreResumable | crates/bnetcc-proto/src/line.rs:28-50 | the same for lines ended by LF with an optional CR |
| Framing.LineWireDecodes | crates/bnetcc-proto/src/line.rs:28-57 | an encoded line that can be sent decodes to itself in front of anything |
| Framing.LineEndsAlike | crates/bnetcc-proto/src/line.rs:28-50 | a line ended by LF alone and one ended by CR and LF are read alike, but for the bytes used and the limit that counts the CR |
| Framing.UnendedLine | crates/bnetcc-proto/src/line.rs:42-50 | without an LF more is awaited up to the limit and refused past it |
| Framing.BncsVerdict | crates/bnetcc-proto/src/bncs.rs:74-104 | a header of any four bytes is refused for its first byte, for a length shorter than itself or past the ceiling, in this order, and else awaited or taken |
| Framing.McpVerdict | crates/bnetcc-proto/src/mcp.rs:77-106 | the same for the three bytes of an MCP header |
| Framing.ShortOfHeader | crates/bnetcc-proto/src/bncs.rs:74-78 | fewer bytes than a header decide nothing |
| Sessions.NoFramingSeesReads | crates/bnetcc-proto/src/line.rs:28-50 | for BNCS, MCP and lines, reads cannot be told from the outcome |
| Sessions.BncsRoundTrip | crates/bnetcc-proto/src/bncs.rs:74-122 | frames sent arrive as sent exactly when each is within the receiver's ceiling |
| Sessions.McpRoundTrip | crates/bnetcc-proto/src/mcp.rs:77-123 | the same for MCP |
| Sessions.LinesRoundTrip | crates/bnetcc-proto/src/line.rs:28-57 | lines sent arrive as sent exactly when none holds LF or, with its CR, passes the ceiling |
| Sessions.BncsStaysWithin | crates/bnetcc-proto/src/bncs.rs:74-104 | no decoded frame is over the ceiling, and less than a ceiling's worth waits |
| Sessions.McpStaysWithin | crates/bnetcc-proto/src/mcp.rs:77-103 | the same for MCP |
| Sessions.LinesStayWithin | crates/bnetcc-proto/src/line.rs:28-50 | no decoded line holds LF or passes the ceiling, and no more than the ceiling waits |
| Sessions.EncodeBncs | crates/bnetcc-proto/src/bncs.rs:108-122 | the frame's wire form is appended, or the frame is refused for its length and nothing is |
| Sessions.EncodeMcp | crates/bnetcc-proto/src/mcp.rs:110-123 | the same for MCP |
| Sessions.DecodeBncs | crates/bnetcc-proto/src/bncs.rs:74-104 | the buffer loses exactly the bytes the step used |
| Sessions.DecodeMcp | crates/bnetcc-proto/src/mcp.rs:77-106 | the same for MCP |
| Sessions.DecodeLine | crates/bnetcc-proto/src/line.rs:28-50 | the same for lines; an over-long line clears the buffer |
| Sessions.TakeFrames | crates/bnetccd/src/session.rs:689-739 | after one read frames are taken up to the one that ends the session, or all there are, or up to the error |
| Sessions.BncsSession | crates/bnetccd/src/session.rs:622-744 | the whole loop: the frames taken are those of the concatenated bytes, up to the first after which the state check or the handler closes, and it ends by that, by the error, or by what stopped the reads |
| Federation.DecodeWhole | crates/bnetcc-federation/src/frame.rs:39-61 | a message encoded in front of anything decodes to itself, given a reversible body code |
| Federation.FrameVerdict | crates/bnetcc-federation/src/frame.rs:53-61 | a header of any four bytes, high byte first, is refused past the limit, and else its frame is awaited or taken if its body is a message |
| Federation.ReceiveOutcome | crates/bnetcc-federation/src/link.rs:54-71 | on any bytes and reads, a receive makes the fewest reads that settle it and ends with the frame, the refusal, the end of the stream, or the read that no longer fits |
| Federation.DeliveredIffSplitSafe | crates/bnetcc-federation/src/link.rs:54-71 | a message list arrives whole and in order under every split into reads of at most 8192 bytes exactly when each frame fits together with what can follow it |
| Federation.SmallBodiesAreSafe | crates/bnetcc-federation/src/link.rs:54-71 | bodies of at most `MAX_FRAME - 8191` bytes always do |
| Federation.SafeIsDelivered | crates/bnetcc-federation/src/link.rs:54-71 | from any point inside a stream whose frames fit, the rest is delivered whole and then the close |
| Federation.UnsafeReads | crates/bnetcc-federation/src/link.rs:66-68 | for any list with a frame that does not fit there are reads under which it is refused |
| Federation.LargestBodiesCanBeLost | crates/bnetcc-federation/src/link.rs:66-68 | two bodies of the largest size accepted, and reads that lose one |
| Federation.Link.Recv | crates/bnetcc-federation/src/link.rs:54-71 | one receive is one step of the value model, and never more than one whole frame is held |
| Modular.SharedSecret | crates/bnetcc-crypto/src/nls.rs:218-275 | `(B - g^x)^(a + u x)` and `(A v^u)^b` are congruent, the subtraction made natural by adding `N` |
| Modular.InvertiblePower | crates/bnetcc-crypto/src/nls.rs:153-156 | a power of an invertible number is never 0 modulo `N` |
| Nls.ToLe32 | crates/bnetcc-crypto/src/nls.rs:99-106 | the low 32 little-endian bytes, padded with zeros |
| Nls.FieldRoundTrip | crates/bnetcc-crypto/src/nls.rs:99-110 | a value survives its 32 bytes exactly when it is below 2^256 |
| Nls.ComputeSessionKey | crates/bnetcc-crypto/src/nls.rs:175-191 | the interleaving loops compute the session key |
| Nls.SessionKeyInterleaves | crates/bnetcc-crypto/src/nls.rs:175-191 | taken apart again, the key is the two digests of the secret taken apart |
| Nls.ClientPublicIsNeverZero | crates/bnetcc-crypto/src/nls.rs:153-156 | no exponent makes the client's public key one the server must refuse |
| Nls.SecretsAgree | crates/bnetcc-crypto/src/nls.rs:218-275 | client and server reach one secret, for every name, password, salt, random value and hash |
| Nls.RightPasswordIsAccepted | crates/bnetcc-crypto/src/nls.rs:114-275 | the right name and password, each typed in whatever case, are accepted and answered with the proof the client expects, and the only challenge the client refuses is `B` = 0 |
| Nls.UpperIff | crates/bnetcc-crypto/src/nls.rs:112-116 | two spellings are one after folding exactly when they differ in the case of ASCII letters at most |
| NlsBinding.PrivateKeyBinds | crates/bnetcc-crypto/src/nls.rs:118-129 | one private key belongs to one salt and one name and password up to case, or two inputs with one hash are shown |
| NlsBinding.ColonEndsName | crates/bnetcc-crypto/src/nls.rs:120-125 | where the name ends is known as long as neither name has a colon |
| NlsBinding.SessionKeyBinds | crates/bnetcc-crypto/src/nls.rs:173-191 | one session key belongs to one secret, or a collision is shown |
| NlsBinding.ClientProofBinds | crates/bnetcc-crypto/src/nls.rs:194-204 | one proof belongs to one name up to case, one salt, one pair of public keys and one session key, or a collision is shown |
| NlsBinding.ServerProofBinds | crates/bnetcc-crypto/src/nls.rs:207-213 | the same for the server's answer |
| NlsBinding.AcceptedMeansSameSecret | crates/bnetcc-crypto/src/nls.rs:249-275 | whatever the client, a proof that is accepted was made from the server's own salt, keys and secret and its name up to case, or a collision is shown |
| NlsBinding.ServerAcceptsIff | crates/bnetcc-crypto/src/nls.rs:249-275 | the server accepts the one proof its own key makes, and none when `A` is a multiple of `N` |
| NlsBinding.ClientAbortsIff | crates/bnetcc-crypto/src/nls.rs:218-232 | the client goes on unless `B` is a multiple of `N` |
| NlsBinding.ZeroKeyMeansZeroSecret | crates/bnetcc-crypto/src/nls.rs:243-268 | with such an `A` the secret would be 0 whatever the verifier |
| NlsBinding.ExponentIff | crates/bnetcc-crypto/src/nls.rs:142-149 | an exponent is its random value exactly when that is neither 0 nor past `N` |
| NlsBinding.ScramblerIsFirstFour | crates/bnetcc-crypto/src/nls.rs:165-170 | the scrambler is the first four bytes of the hash of `B`, high byte first |
| Tga.GreedyHoldsRow | crates/bnetcc-icons/src/tga.rs:95-119 | the packets of a row expand to exactly that row |
| Tga.GreedyIsWellFormed | crates/bnetcc-icons/src/tga.rs:95-119 | each packet holds 1 to 128 pixels and a run at least two |
| Tga.GreedyIsCompact | crates/bnetcc-icons/src/tga.rs:95-119 | a row takes at most `3w + ceil(w / 128)` bytes |
| Tga.RowCodeIsPackets | crates/bnetcc-icons/src/tga.rs:95-119 | what is written for a row is its packets' bytes |
| TgaCodec.EncodeImage | crates/bnetcc-icons/src/tga.rs:85-121 | the loops that scan runs and literals compute the specified file |
| TgaCodec.DecodeImage | crates/bnetcc-icons/src/tga.rs:16-68 | the loops that unpack and flip rows compute the specified image or refuse |
| TgaCodec.DecodeEncode | crates/bnetcc-icons/src/tga.rs:16-121 | `width * height * 3` bytes decode to themselves exactly when both sizes are 1 to 65535 |
| TgaCodec.RowsAreCompact | crates/bnetcc-icons/src/tga.rs:85-121 | the whole body is within the row bound times the rows |
| TgaCodec.TopDownIsStraight | crates/bnetcc-icons/src/tga.rs:55-67 | a picture stored top down is read straight through |
| TgaPixels.DecodedIff | crates/bnetcc-icons/src/tga.rs:16-53 | a file is decoded exactly when its header is of the one kind and packets that hold the picture follow |
| TgaPixels.DecodedPixel | crates/bnetcc-icons/src/tga.rs:16-68 | every pixel of the picture is the one at its place in the packets, in the same row or, stored from the bottom, the one as far from the end |
| TgaPixels.TurnedIsUpsideDown | crates/bnetcc-icons/src/tga.rs:55-60 | turning bit 5 of the last header byte turns the picture of any file upside down |
| TgaPixels.DepthDoesNotShow | crates/bnetcc-icons/src/tga.rs:29-54 | files of the same packets show the same picture at 24 and 32 bits, whatever the fourth bytes |
| TgaPixels.EncodedHeader | crates/bnetcc-icons/src/tga.rs:85-93 | the eighteen header bytes of an encoded file |
| Bni.ParseFile | crates/bnetcc-proto/src/bni.rs:204-283 | the table loop parses the specified file, or refuses with the specified error |
| Bni.BuildFile | crates/bnetcc-proto/src/bni.rs:286-313 | the growing buffer is the specified file |
| Bni.ParseBuild | crates/bnetcc-proto/src/bni.rs:204-313 | a file is read back exactly when it is version 1, has at most 31 codes an icon, none zero, and its offset fits 32 bits |
| Bni.ParsedIsBuilt | crates/bnetcc-proto/src/bni.rs:204-313 | building what was parsed gives the same bytes but for the two of padding |
| Bni.ParsedIff | crates/bnetcc-proto/src/bni.rs:204-313 | bytes are read as a file exactly when they are that file built, whatever stands in the padding |
| Bni.HeaderRefusedIff | crates/bnetcc-proto/src/bni.rs:204-240 | each refusal before the table, and when it is given |
| Bni.EntryReadAs | crates/bnetcc-proto/src/bni.rs:243-274 | an entry is three words and then its codes up to the zero word |
| Bni.CodesRefusedIff | crates/bnetcc-proto/src/bni.rs:249-262 | an entry is cut short when its words run out unended, and has too many codes when 32 words do not end it |
| Bni.EntryRefusedIff | crates/bnetcc-proto/src/bni.rs:243-262 | the entry blamed is the first that cannot be read |
| Pack.StackPictures | crates/bnetcc-icons/src/pack.rs:180-203 | the copying loops stack the pictures, padded to the widest |
| Pack.PackIcons | crates/bnetcc-icons/src/pack.rs:173-209 | wrong sizes are refused and else the specified file is built |
| Pack.ExportIcons | crates/bnetcc-icons/src/pack.rs:52-77 | the cutting loop yields the specified pictures or refuses |
| Pack.CutIsAtOffset | crates/bnetcc-proto/src/bni.rs:410-412 | exporting takes each icon from the rows where the client looks for it |
| Pack.PackExport | crates/bnetcc-icons/src/pack.rs:52-209 | packing and exporting gives back every entry and pixel exactly when the sizes agree and the icons fit the format |
| PackPlaces.PaddedByte | crates/bnetcc-icons/src/pack.rs:188-203 | each byte of a padded row is the picture's own, or black behind its width |
| PackPlaces.StackedBlock | crates/bnetcc-icons/src/pack.rs:188-203 | each picture stands below all those before it |
| PackPlaces.PackRefusedIff | crates/bnetcc-icons/src/pack.rs:173-209 | packing is refused without icons or for the first picture of a wrong size, and what the format can hold is packed |
| PackPlaces.CutByte | crates/bnetcc-icons/src/pack.rs:64-77 | each byte of a cut is the one at the same place of the same row |
| PackPlaces.CutRefusedIff | crates/bnetcc-icons/src/pack.rs:60-77 | exporting stops at the first icon that reaches below the image or beside it |
| Png.Adler32 | crates/bnetcc-icons/src/png.rs:22-29 | the sums reduced at each step are the unreduced sums modulo 65521 |
| Png.WriteStoredZlib | crates/bnetcc-icons/src/png.rs:40-59 | the block loop writes the specified stream, only the last block final |
| Png.StoredIsRead | crates/bnetcc-icons/src/png.rs:40-59 | a reader that checks every LEN against NLEN and the Adler-32 gets every input back |
| Png.StoredSize | crates/bnetcc-icons/src/png.rs:40-59 | five bytes a block, in the fewest blocks there can be |
| Png.NoShorterStream | crates/bnetcc-icons/src/png.rs:40-59 | no stored stream of the same bytes is shorter than the one written |
| Png.WritePng | crates/bnetcc-icons/src/png.rs:67-85 | the row loop writes the specified file |
| Png.PngIsReadIff | crates/bnetcc-icons/src/png.rs:31-85 | the file reads back as its sizes and pixels, whatever the CRC function, exactly when its stream fits the 32-bit length of a chunk |
| Storage.MemoryStorage.Create | crates/bnetcc-storage/src/memory.rs:53-72 | an account is made under the next id, or refused, as the reference says |
| Storage.MemoryStorage.Get | crates/bnetcc-storage/src/memory.rs:83-91 | of the keys asked for, those the account has |
| Storage.MemoryStorage.PutAttrs | crates/bnetcc-storage/src/memory.rs:97-103 | the put merges over what was there |
| Storage.MemoryStorage.Delete | crates/bnetcc-storage/src/memory.rs:142-150 | account, name, attributes, bans and characters of the id go |
| Storage.MemoryStorage.List | crates/bnetcc-storage/src/memory.rs:131-140 | the accounts behind the first `offset` in the order of their ids, at most `limit` |
| Storage.InOrderAscends | crates/bnetcc-storage/src/memory.rs:132-133 | that order is ascending and leaves none out |
| Storage.MemoryStorage.AddCharacter | crates/bnetcc-storage/src/memory.rs:164-173 | a character needs an owner and a name nobody has, in either case of letters |
| Storage.MemoryStorage.ChangeCharacter | crates/bnetcc-storage/src/memory.rs:175-187 | the owner's character of that name changes, but not its name, class or time of creation |
| Storage.MemoryStorage.RemoveCharacter | crates/bnetcc-storage/src/memory.rs:189-194 | the owner's characters of that name go, and whether there was one |
| Storage.ApplyKeepsOrder | crates/bnetcc-storage/src/memory.rs:43-194 | every call keeps accounts and names each other's inverse, and characters owned and distinct by name |
| Storage.DeletedIsGone | crates/bnetcc-storage/src/memory.rs:142-150 | nothing is left under a deleted id and its name is free |
| StorageAnswers.CallsKeepToTheirPart | crates/bnetcc-storage/src/memory.rs:43-199 | a question changes nothing and every other call changes its own part of the store only |
| StorageAnswers.FoundIff | crates/bnetcc-storage/src/memory.rs:44-51 | an account is found by its name in any case, or its id, and nobody else is |
| StorageAnswers.CreatedIff | crates/bnetcc-storage/src/memory.rs:53-72 | an account is created exactly when its name is allowed and nobody's, under a new id, and is then found with what it came with |
| StorageAnswers.CredentialIsReplaced | crates/bnetcc-storage/src/memory.rs:74-81 | the credential alone changes, or there is no such account |
| StorageAnswers.PagesListAll | crates/bnetcc-storage/src/memory.rs:131-140 | pages put together list every account once and by ascending id |
| StorageAnswers.AllAreListed | crates/bnetcc-storage/src/memory.rs:127-140 | the list holds just the accounts there are, and their number is the count |
| StorageAnswers.PutIsGot | crates/bnetcc-storage/src/memory.rs:83-103 | what is put is what is got, over what was there, for that account only |
| StorageAnswers.BanIsTheStanding | crates/bnetcc-storage/src/memory.rs:105-120 | of the bans that have not expired the network-wide one counts first, and an expired one never |
| StorageAnswers.BansFollow | crates/bnetcc-storage/src/memory.rs:105-125 | a ban put stands for its account and scope, one cleared does not, and no other changes |
| StorageAnswers.KeptInOrder | crates/bnetcc-storage/src/memory.rs:142-194 | what is kept of the characters keeps its order, each by itself |
| StorageAnswers.KeptAlone | crates/bnetcc-storage/src/memory.rs:142-194 | and a character is told by its owner, or by its owner and name in any case |
| StorageAnswers.CharacterCreatedIff | crates/bnetcc-storage/src/memory.rs:164-173 | a character is created last exactly when its owner exists and nobody's has the name |
| StorageAnswers.CharacterFound | crates/bnetcc-storage/src/memory.rs:156-162 | the first of that name, whoever owns it |
| StorageAnswers.CharacterUpdatedIff | crates/bnetcc-storage/src/memory.rs:175-187 | the owner's first of that name takes five fields and keeps four, and no other changes |
| StorageAnswers.CharacterDeletedIff | crates/bnetcc-storage/src/memory.rs:189-194 | the owner's characters of that name go, and whether there was one is told |
| StorageAnswers.DeletionSparesOthers | crates/bnetcc-storage/src/memory.rs:142-150 | with an account go its own things and nobody else's |
| Text.LowerIff | crates/bnetcc-storage/src/memory.rs:44-47 | names are one up to case exactly when they differ in the case of ASCII letters at most |
| Text.AllowedIff | crates/bnetcc-storage/src/lib.rs:248-306 | an account may be called just two to fifteen printable characters with a letter or digit and no colon, with one to fifteen more behind a last `@` or none |
| WriteBehind.CallIsTransparent | crates/bnetcc-storage/src/write_behind.rs:188-304 | every call on issued ids is answered as the unbuffered store would, and the count of buffered attributes stays right |
| WriteBehind.CreateIsTransparentIff | crates/bnetcc-storage/src/write_behind.rs:198-201 | a creation is the same in both exactly when it is refused, carries nothing, or carries what waits for that id |
| WriteBehind.CallIsTransparentIff | crates/bnetcc-storage/src/write_behind.rs:188-304 | on any buffer every call is answered as the merged store would, and leaves the same view exactly when a creation fits |
| WriteBehind.FlushIsInvisible | crates/bnetcc-storage/src/write_behind.rs:147-176 | a flush, whichever puts are refused, changes nothing a caller can see |
| WriteBehind.TickBoundsLoss | crates/bnetcc-storage/src/write_behind.rs:127-145 | after a tick that did not fail nothing is buffered or no flush is due; a failed one keeps accounts and the time of the last flush |
| WriteBehind.PutsWait | crates/bnetcc-storage/src/write_behind.rs:189-297 | a put goes to the buffer alone and is counted, a deletion takes what was waiting, and no other call moves the buffer |
| WriteBehind.FlushStoresTheRest | crates/bnetcc-storage/src/write_behind.rs:147-176 | a flush stores what is taken, keeps what is refused as it was, and is counted exactly when nothing was |
| WriteBehind.TickFlushesIff | crates/bnetcc-storage/src/write_behind.rs:127-145 | the timer flushes exactly when something waits and there is much of it or it is late |
| WriteBehind.LossIsYoung | crates/bnetcc-storage/src/write_behind.rs:26-34 | on a clock that does not go back, after any run and a tick that did not fail, everything still buffered was put less than the interval ago, and there is less of it than the policy allows |
| WriteBehind.RunsAreTransparentIff | crates/bnetcc-storage/src/write_behind.rs:120-304 | over any run the view is at every moment that of an unbuffered store exactly when every creation fits |
| WriteBehind.FittingRunsAnswerAlike | crates/bnetcc-storage/src/write_behind.rs:120-304 | and then every reply of the run is that store's |
| WriteBehind.RunsAreTransparent | crates/bnetcc-storage/src/write_behind.rs:120-304 | so, with puts on issued ids only, over every run of calls, ticks and failing flushes callers hear what an unbuffered store would have said |
| WriteBehind.UnissuedPutShows | crates/bnetcc-storage/src/write_behind.rs:230-242 | a put before its id is issued can be told apart |
| WriteBehindStore.WriteBehindStore.AttrsGet | crates/bnetcc-storage/src/write_behind.rs:207-217 | stored values overlaid by buffered ones are the merged view's |
| WriteBehindStore.WriteBehindStore.AttrsAll | crates/bnetcc-storage/src/write_behind.rs:219-228 | all of the merged view |
| WriteBehindStore.WriteBehindStore.AttrsPut | crates/bnetcc-storage/src/write_behind.rs:230-242 | the entry loop buffers all and counts the new cells |
| WriteBehindStore.WriteBehindStore.DeleteAccount | crates/bnetcc-storage/src/write_behind.rs:267-274 | what is buffered for the account goes with it |
| WriteBehindStore.Recount | crates/bnetcc-storage/src/write_behind.rs:168-168 | the sum over the accounts is the number of buffered attributes |
| WriteBehindStore.WriteBehindStore.FlushNow | crates/bnetcc-storage/src/write_behind.rs:147-176 | the loop takes what the backend accepts, keeps the rest and recounts |
| WriteBehindStore.WriteBehindStore.Tick | crates/bnetcc-storage/src/write_behind.rs:127-145 | a flush happens exactly when one is due |
| Channels.StepKeepsInv | crates/bnetcc-core/src/channel.rs:272-515 | every operation keeps heirs distinct, present and not the operator, the operator present, no heirs without one, names distinct up to case, the capacity, and the flag on one session of the operator at most |
| Channels.NewIsInOrder | crates/bnetcc-core/src/channel.rs:132-155 | a new channel is in order |
| Channels.SuccessionIsInOrder | crates/bnetcc-core/src/channel.rs:348-382 | when the operator's last session goes the first heir succeeds, or nobody |
| Channels.BanRemovesAllIff | crates/bnetcc-core/src/channel.rs:429-438 | a banned account is gone exactly when it had at most one session |
| Channels.BanByNameRemovesAllIff | crates/bnetcc-core/src/channel.rs:480-495 | the same for the ban of the account behind a named session |
| ChannelRuns.BannedAccountCanStay | crates/bnetcc-core/src/channel.rs:334-341 | a run of three joins and a ban after which the banned account is present |
| ChannelRuns.StepKeepsBannedOutIff | crates/bnetcc-core/src/channel.rs:272-515 | over all operations, no banned account is present afterwards exactly unless a ban met a second session |
| ChannelRuns.BannedStayOutThroughoutIff | crates/bnetcc-core/src/channel.rs:272-515 | over any run none is present at any moment exactly when no ban met a second session |
| Channels.BanKeepsOut | crates/bnetcc-core/src/channel.rs:279-281 | a banned account that is out stays out through any step but the lift of its ban |
| Channels.SeqFollowsChanges | crates/bnetcc-core/src/channel.rs:232-235 | the number never falls and rises by one with members, operator or heirs; bans alone do not move it |
| Channels.StepOrigin | crates/bnetcc-core/src/channel.rs:290-404 | a new operator or heir is one this very step granted or designated |
| ChannelRosters.RosterFollows | crates/bnetcc-core/src/channel.rs:272-515 | every operation takes out just the session it means, lets in just the one it admits, and leaves all others as they were, but for the flag of a new operator |
| ChannelRosters.FirstToEnter | crates/bnetcc-core/src/channel.rs:132-301 | the first to enter a new channel is its operator unless it is an official one |
| ChannelRosters.LeaverIsGone | crates/bnetcc-core/src/channel.rs:327-332 | after a leave nobody bears the name |
| ChannelRosters.SessionsFollow | crates/bnetcc-core/src/channel.rs:272-515 | an account has one session fewer exactly when it leaves or an allowed kick or ban takes it, and one more exactly when it is let in |
| ChannelRosters.OnlySentAwayGo | crates/bnetcc-core/src/channel.rs:327-495 | an account goes exactly with its last session, by leaving or at the hands of the operator of the time, who cannot be sent away |
| ChannelRosters.OperatorFollows | crates/bnetcc-core/src/channel.rs:290-382 | a new operator comes by the channel's rule, or as the first in line when the old one's last session goes |
| ChannelRosters.GrantsIff | crates/bnetcc-core/src/channel.rs:246-301 | the rule in terms of the name itself, its `#N` taken away |
| ChannelRosters.LineFollows | crates/bnetcc-core/src/channel.rs:348-515 | who is in line after any operation, and in what order |
| ChannelRosters.BansFollow | crates/bnetcc-core/src/channel.rs:272-515 | who is banned after any operation |
| ChannelRosters.LiftedMayEnter | crates/bnetcc-core/src/channel.rs:272-450 | once its ban is lifted an account may enter like anybody else |
| ChannelRosters.SeqFollows | crates/bnetcc-core/src/channel.rs:232-515 | the number moves by one exactly when a session goes or comes or somebody is put at the end of the line |
| ChannelRosters.AnswerFollows | crates/bnetcc-core/src/channel.rs:272-515 | each refusal and when it is given, changing nothing, and else what the caller is told |
| ChannelRuns.RunsAreInOrder | crates/bnetcc-core/src/channel.rs:272-515 | every state of every run is in order |
| ChannelRuns.OperatorsHaveAnOrigin | crates/bnetcc-core/src/channel.rs:290-404 | whoever leads was granted the role on entry or designated by the operator of the time, and has been present ever since |
| ChannelRuns.LineIsInOrderOfDesignation | crates/bnetcc-core/src/channel.rs:390-515 | at every moment of every run the line stands in the order of its designations |
| ChannelRuns.GrantMeansEmpty | crates/bnetcc-core/src/channel.rs:290-301 | in a first-arrival channel that entry was into an empty channel |
| ChannelRuns.OperatorlessUntilEmpty | crates/bnetcc-core/src/channel.rs:290-382 | a non-empty first-arrival channel without an operator has none until it empties |
| ChannelRuns.NoGrantNoOperator | crates/bnetcc-core/src/channel.rs:290-301 | where nothing is granted there is never an operator, nor a ban |
| ChannelRuns.BanHolds | crates/bnetcc-core/src/channel.rs:279-281 | over any run without a lift, a banned account that is out stays out |
| ChannelRuns.FlagIsLostIff | crates/bnetcc-core/src/channel.rs:348-382 | a departure leaves an operator unflagged exactly when it takes the flagged one of several sessions |
| ChannelRuns.StepShowsFlagIff | crates/bnetcc-core/src/channel.rs:272-515 | over all operations, the flag goes on showing exactly unless the flagged session leaves another of the operator behind |
| ChannelRuns.FlagShowsThroughoutIff | crates/bnetcc-core/src/channel.rs:272-515 | over any run someone is flagged whenever there is an operator, and only then, at every moment exactly when no step did that |
| ChannelRuns.FlagCanBeLost | crates/bnetcc-core/src/channel.rs:348-365 | a run of two joins and a departure after which the operator carries no flag |
| ChannelRuns.FlagMarksOperator | crates/bnetcc-core/src/channel.rs:302-316 | while nobody joins twice, the flag marks exactly the operator at every moment |
| ChannelRuns.RoleEndsIff | crates/bnetcc-core/src/channel.rs:327-495 | an operator's role ends exactly when the operator's only session leaves of its own accord |
| ChatChannels.ChatChannel.Join | crates/bnetcc-core/src/channel.rs:272-325 | the method takes the channel through the join step |
| ChatChannels.ChatChannel.Leave | crates/bnetcc-core/src/channel.rs:327-332 | through the leave step |
| ChatChannels.ChatChannel.Remove | crates/bnetcc-core/src/channel.rs:348-382 | through the removal of one session with its succession |
| ChatChannels.ChatChannel.Designate | crates/bnetcc-core/src/channel.rs:390-404 | through the designation, which moves an heir to the back |
| ChatChannels.ChatChannel.DesignateByName | crates/bnetcc-core/src/channel.rs:501-515 | through the designation by name, which leaves an heir in place |
| ChatChannels.ChatChannel.Kick | crates/bnetcc-core/src/channel.rs:411-422 | through the kick step |
| ChatChannels.ChatChannel.KickByName | crates/bnetcc-core/src/channel.rs:464-473 | through the kick of one named session |
| ChatChannels.ChatChannel.Ban | crates/bnetcc-core/src/channel.rs:429-438 | through the ban step |
| ChatChannels.ChatChannel.BanByName | crates/bnetcc-core/src/channel.rs:480-495 | through the ban of the account behind a named session |
| ChatChannels.ChatChannel.Unban | crates/bnetcc-core/src/channel.rs:445-450 | through the lift of a ban |
| Bridges.DerivedNameFits | crates/bnetcc-core/src/bridge.rs:141-176 | for every remote name and number, at most 15 printable characters that read as this bridge's |
| Bridges.BridgedIff | crates/bnetcc-core/src/bridge.rs:115-121 | a name reads as bridged exactly when it is a tag, a colon and something more |
| Bridges.SanitizedKeepsOrder | crates/bnetcc-core/src/bridge.rs:141-151 | each character that can be carried is kept in its place and each other one dropped |
| Bridges.DerivedShowsName | crates/bnetcc-core/src/bridge.rs:159-176 | a derived name is the tag, as much of the display name as fits in 15, and the number |
| Bridges.AccountsAreNotBridged | crates/bnetcc-storage/src/lib.rs:248-306 | no name an account may have reads as bridged, even with a colon in its realm |
| Bridges.DerivedNamesAreNobodys | crates/bnetcc-core/src/bridge.rs:115-132 | no derived name equals an allowed account name, up to case |
| Bridges.CandidatesDiffer | crates/bnetcc-core/src/bridge.rs:328-337 | the 99 candidates are pairwise distinct when lowercased |
| BridgeRegistries.ByNameFindsIff | crates/bnetcc-core/src/bridge.rs:262-265 | a name leads to a person exactly when it is that person's up to case |
| BridgeRegistries.UpsertKeepsInverseIff | crates/bnetcc-core/src/bridge.rs:276-341 | the two maps stay inverse exactly when a candidate or the fallback name was free |
| BridgeRegistries.AnnouncedIsPresented | crates/bnetcc-core/src/bridge.rs:262-341 | who is announced has the first free name and the first account, is found under that name and no longer under the old one, and nobody else is touched |
| BridgeRegistries.WithdrawnIsGone | crates/bnetcc-core/src/bridge.rs:262-348 | who is withdrawn is found under no name, the name is free to anybody, and nobody else is touched |
| BridgeRegistries.FewPeopleLeaveNames | crates/bnetcc-core/src/bridge.rs:322-341 | with at most 98 other people a candidate is free |
| BridgeRegistries.RunsKeepInverseIff | crates/bnetcc-core/src/bridge.rs:276-348 | over every run, inverse at every moment exactly when every announcement found a name left |
| BridgeRegistries.SmallBridgesStayInverse | crates/bnetcc-core/src/bridge.rs:276-348 | which it does while no announcement meets more than 98 others |
| BridgeRegistries.AccountIsKept | crates/bnetcc-core/src/bridge.rs:286-314 | a person keeps the first account through all renames, until withdrawn |
| BridgeRegistries.FallbackCanClash | crates/bnetcc-core/src/bridge.rs:338-340 | a reachable registry in which two people hold one name |
| BridgeRegistries.BridgeRegistry.AllocateName | crates/bnetcc-core/src/bridge.rs:322-341 | the loop finds the first free candidate, else the fallback |
| BridgeRegistries.BridgeRegistry.Upsert | crates/bnetcc-core/src/bridge.rs:276-319 | the method takes both maps through the announcement |
| BridgeRegistries.BridgeRegistry.Remove | crates/bnetcc-core/src/bridge.rs:344-348 | and through the withdrawal |
| OriginChains.RelayNeverLoops | crates/bnetcc-core/src/bridge.rs:384-401 | a message enters each bridge at most once and at most three, and below three every bridge that asked has it |
| OriginChains.OriginChain.Push | crates/bnetcc-core/src/bridge.rs:395-401 | a refused push changes nothing |
| Counts.SumSplit | crates/bnetcc-core/src/limits.rs:148-170 | the sum over a table does not depend on the order of its entries |
| Admission.ApplyDescribesIff | crates/bnetcc-core/src/limits.rs:129-255 | after one event every count, class sum and total is that of what is open exactly when what was moved was open, and what was closed was too or nothing is |
| Admission.RunsDescribeIff | crates/bnetcc-core/src/limits.rs:129-255 | over any run the tables describe what is open at every moment exactly when every event was harmless |
| Admission.StrayReleaseUpsets | crates/bnetcc-core/src/limits.rs:154-170 | a run of one admission and a release of another address that upsets the total |
| Admission.StrayMoveUpsets | crates/bnetcc-core/src/limits.rs:206-220 | with nothing ever admitted, one move to another class makes the total one |
| Admission.RunsDescribe | crates/bnetcc-core/src/limits.rs:129-255 | over every proper run the tables describe what is open, and are empty once all is closed |
| Admission.RejectionsChangeNothing | crates/bnetcc-core/src/limits.rs:129-146 | a rejection names a ceiling that is reached, the class-wide one first, and changes nothing |
| Admission.AnsweredByWhatIsOpen | crates/bnetcc-core/src/limits.rs:129-242 | while the tables describe what is open, every event is answered by the number of open connections of its class and address |
| Admission.CeilingsHold | crates/bnetcc-core/src/limits.rs:178-242 | with fixed limits no count passes its ceiling over any run; allowlisted addresses have none |
| Admission.AdmissionTable.Release | crates/bnetcc-core/src/limits.rs:154-192 | the method drops one from each table, and the entry with its last |
| Admission.AdmissionTable.Admit | crates/bnetcc-core/src/limits.rs:178-187 | the method takes the table through the admission |
| Admission.AdmissionTable.Reclassify | crates/bnetcc-core/src/limits.rs:206-220 | through the move to another class |
| Admission.AdmissionTable.BindAccount | crates/bnetcc-core/src/limits.rs:229-242 | through the binding of an account |
| Admission.AdmissionTable.ReleaseAccount | crates/bnetcc-core/src/limits.rs:245-252 | through its release |
| Flood.CheckIsSafe | crates/bnetcc-core/src/limits.rs:310-331 | the content stays within the capacity and the sum before the cut fits 64 bits |
| Flood.RunIsSafe | crates/bnetcc-core/src/limits.rs:310-331 | the same over any run on any clock |
| Flood.CheckIsExact | crates/bnetcc-core/src/limits.rs:310-331 | a check finds what was there and was earned, up to the capacity, within a thousandth; it allows exactly when that is a token, and time never costs one |
| Flood.BurstIsExact | crates/bnetcc-core/src/limits.rs:310-331 | of any number of messages at one time just as many are allowed as there are whole tokens |
| Flood.FullAfterPause | crates/bnetcc-core/src/limits.rs:310-331 | after a long enough pause a burst comes through exactly when it is within the capacity |
| Flood.RunPays | crates/bnetcc-core/src/limits.rs:310-331 | over any checks at any times, what is allowed is paid by the first content and the time passed |
| Flood.WindowBound | crates/bnetcc-core/src/limits.rs:292-331 | in any stretch on a non-decreasing clock at most the burst plus the rate over the time is allowed |
| Flood.RunLosesLittle | crates/bnetcc-core/src/limits.rs:310-331 | and from below, for any checks: what is allowed and left falls short of what was there and earned, or of the capacity, by at most nine tenths of a thousandth a check |
| Flood.UncutRunLosesLittle | crates/bnetcc-core/src/limits.rs:310-331 | and of nothing but that while no refill is cut |
| Flood.SpacedRun | crates/bnetcc-core/src/limits.rs:292-331 | with a burst, a sender whose every gap earns a whole token is never suppressed |
| Flood.SteadySenderIff | crates/bnetcc-core/src/limits.rs:292-331 | a steady sender is never suppressed exactly when there is a burst and `gap * per_10s >= 10000` |
| Flood.FrequentChecksEarnNothing | crates/bnetcc-core/src/limits.rs:315-318 | checked so often that each gain rounds to nothing, an empty bucket stays empty |
| Flood.SteadyPollsEarnNothingIff | crates/bnetcc-core/src/limits.rs:315-318 | steady polls of an empty bucket never earn a token exactly when `gap * per_10s < 10` |
| Flood.PolledEveryNineMs | crates/bnetcc-core/src/limits.rs:292-331 | a new sender spends a burst of five and polls every nine milliseconds at a rate of one in ten seconds, and never gets a sixth message through |
| Flood.FloodTracker.CheckMessage | crates/bnetcc-core/src/limits.rs:310-331 | the method takes the bucket through the check |
| Keys.StepAnswersAlikeIff | crates/bnetcc-core/src/limits.rs:403-441 | one step is answered as by a registry that never forgets exactly unless it claims a key whose purged release is, on the clock it is given, still within its pause |
| Keys.AnswersAlikeIff | crates/bnetcc-core/src/limits.rs:403-441 | on any clock, all answers of a run are those of a registry that never forgets exactly when no claim was of that kind |
| Keys.ForgettingIsInvisible | crates/bnetcc-core/src/limits.rs:403-441 | so they are while the clock does not go back |
| Keys.ForgettingCanShow | crates/bnetcc-core/src/limits.rs:423-426 | on a clock that goes back it need not |
| Keys.RunsStayApart | crates/bnetcc-core/src/limits.rs:403-441 | keys in use are never banned nor pausing |
| Keys.HolderKeepsKey | crates/bnetcc-core/src/limits.rs:414-441 | until a release or a ban of the key, its holder has it and every claim is told so |
| Keys.HeldThroughoutIff | crates/bnetcc-core/src/limits.rs:403-441 | the holder has the key at every moment of a run exactly when nobody, the holder or not, releases or bans it |
| Keys.NoClaimDuringPause | crates/bnetcc-core/src/limits.rs:414-441 | no claim of a released key succeeds within the cooldown, whatever happens in between |
| KeyHistories.AnsweredFromHistory | crates/bnetcc-core/src/limits.rs:403-441 | on a clock that does not go back every claim is answered from the key's last ban, holder and release, and every lift from its last ban |
| KeyHistories.OtherKeysDoNotMatter | crates/bnetcc-core/src/limits.rs:403-441 | operations on other keys do not matter |
| KeyHistories.LiftedMayBeClaimed | crates/bnetcc-core/src/limits.rs:409-434 | once its ban is lifted a key nobody holds and past its pause can be claimed |
| Keys.KeyRegistry.Claim | crates/bnetcc-core/src/limits.rs:414-434 | the method takes the registry through the claim |
| Keys.KeyRegistry.Ban | crates/bnetcc-core/src/limits.rs:403-406 | through the ban, which ends a claim without a pause |
| Keys.KeyRegistry.Unban | crates/bnetcc-core/src/limits.rs:409-411 | through the lift of a ban |
| Keys.KeyRegistry.Release | crates/bnetcc-core/src/limits.rs:437-441 | and through the release, whoever asks for it |
| GameServerLinks.StepKeepsInv | crates/bnetccd/src/gslink.rs:112-199 | every step keeps ids and generations distinct, the list of waiters exact, delivered replies with their own requests, and the current connection open |
| GameServerLinks.MailStays | crates/bnetccd/src/gslink.rs:160-172 | a request gets at most one reply |
| GameServerLinks.AnswerReaches | crates/bnetccd/src/gslink.rs:160-172 | a reply reaches the request waiting for its id and leaves requests with other ids alone |
| GameServerLinks.CloseUnlinksIff | crates/bnetccd/src/gslink.rs:178-184 | a closing connection unlinks exactly when it is the current one |
| GameServerLinkRuns.RepliesAreTheirOwn | crates/bnetccd/src/gslink.rs:187-199 | in every interleaving a result carries its request's id, and no finished request is listed |
| GameServerLinkResults.ResultIsTheDelivered | crates/bnetccd/src/gslink.rs:187-199 | in every interleaving a request that received ends with the very reply delivered to it, one that gave up with none, and no other has ended |
| GameServerLinkResults.CanReceiveIff | crates/bnetccd/src/gslink.rs:193-198 | a request that waits can receive exactly when its reply was delivered |
| GameServerLinkResults.NoRequestIsStuck | crates/bnetccd/src/gslink.rs:187-199 | a request under way can always take a step of its own |
| GameServerLinkResults.StepsRunOut | crates/bnetccd/src/gslink.rs:187-199 | and at most six of them end it |
| GameServerLinkResults.AskedAndAnswered | crates/bnetccd/src/gslink.rs:187-222 | from any state there can be, one exchange sends the request once and ends with the reply, and changes nothing else |
| GameServerLinkResults.AskedUnlinked | crates/bnetccd/src/gslink.rs:188-188 | without a game server a request is told so at once |
| GameServerLinkResults.ComesAndGoes | crates/bnetccd/src/gslink.rs:140-184 | from any state a game server that comes is linked and has its games shown, and leaves nothing behind |
| GameServerLinkHistories.ConnStepIff | crates/bnetccd/src/gslink.rs:112-184 | in every run a connection takes its steps in their order, whenever it is its turn and only then |
| GameServerLinkHistories.ReqStepIff | crates/bnetccd/src/gslink.rs:187-199 | so does a request, given what was linked when it began, whether that is open, and whether its reply was delivered |
| GameServerLinkHistories.SentIsWhatWasBound | crates/bnetccd/src/gslink.rs:187-222 | every connection has been sent just the requests bound to it, each under its own id and kind, in the order of their sending |
| GameServerLinkRuns.CurrentIsLastInstalled | crates/bnetccd/src/gslink.rs:141-184 | comparing generations keeps linked the connection installed last, until it closes |
| GameServerLinkRuns.ShownIsLastShown | crates/bnetccd/src/gslink.rs:141-184 | in every run the list shown is the one last pushed by any connection, unless the linked one has closed since |
| GameServerLinkRuns.TwoLooksShow | crates/bnetccd/src/gslink.rs:89-94 | asking takes the two locks in turn: linked or not by the first look, the list by the second |
| GameServerLinkRuns.OwnListIsShownIff | crates/bnetccd/src/gslink.rs:89-184 | the linked server's own last list is shown exactly when nobody pushed since the last unlinking, or the last to push was it, or pushed the same |
| GameServerLinkRuns.ShownGamesAreItsOwn | crates/bnetccd/src/gslink.rs:89-94 | so it is while no game server replaces another |
| GameServerLinkRuns.ReplacedListCanShow | crates/bnetccd/src/gslink.rs:141-184 | after a replacement it can be the old one's |
| GameServerLinkRuns.StepUnderstoodIff | crates/bnetccd/src/gslink.rs:187-222 | after a step all that is sent or on its way is known to its receiver exactly when a lobby request took hold of a server that knows them |
| GameServerLinkRuns.VersionsAreRespectedIff | crates/bnetcc-gslink/src/lib.rs:21-22 | over any run that is so at every moment exactly when every lobby request took hold of such a server |
| GameServerLinkRuns.VersionsAreRespected | crates/bnetccd/src/gslink.rs:187-222 | so it is while none is replaced between a request's two looks |
| GameServerLinkRuns.OldServerCanGetLobbyRequest | crates/bnetccd/src/gslink.rs:187-222 | with a replacement in between it is not |
| GameServerLinkOrigins.RunsSendOnce | crates/bnetccd/src/gslink.rs:187-199 | each id is sent to at most one connection, and only by a request past that point |
| GameServerLinkOrigins.RepliesComeFromAskedIff | crates/bnetccd/src/gslink.rs:160-172 | over any run each reply came, at every moment, from a connection that had been sent its id exactly when every answer that reached a request was from one that had been asked |
| GameServerLinkOrigins.AskedAlone | crates/bnetccd/src/gslink.rs:187-199 | and that connection is the only one the request was sent to |
| GameServerLinkOrigins.StrangerCanAnswer | crates/bnetccd/src/gslink.rs:160-172 | a replaced game server answers what its successor was asked |
| Attributes.NormalizeIsCanonical | crates/bnetcc-storage/src/attr.rs:101-107 | a canonical key is its own canonical form |
| Attributes.SpaceCharIff | crates/bnetcc-storage/src/attr.rs:104-106 | what is trimmed are the UTF-8 forms of the code points that are white space |
| Attributes.NormalizeKeeps | crates/bnetcc-storage/src/attr.rs:104-106 | a key is kept without the white space around it and byte by byte otherwise, slashes turned and letters made small |
| Attributes.MatchesIff | crates/bnetcc-storage/src/attr.rs:209-216 | a key falls under a prefix when it is the prefix or goes on from it with a backslash |
| Attributes.SortedSorts | crates/bnetcc-storage/src/attr.rs:199-205 | the rules end up longest first, with the order of equal lengths and every rule kept |
| Attributes.AclIsLongestPrefix | crates/bnetcc-storage/src/attr.rs:199-216 | after any calls, a key has the ACL last set for its longest prefix of whole segments, else the fallback |
| Attributes.LongestIsUnique | crates/bnetcc-storage/src/attr.rs:209-216 | two prefixes of one length cannot both match |
| Attributes.OrderDoesNotMatter | crates/bnetcc-storage/src/attr.rs:199-216 | calls that leave the same ACL for each prefix make the same schema |
| AttributeAccess.DefaultAcl | crates/bnetcc-storage/src/attr.rs:166-186 | the default schema's answer for every key there can be |
| AttributeAccess.WhoSeesWhat | crates/bnetcc-storage/src/attr.rs:235-241 | by default credentials are shown to none but the server, all else to owner and staff, and to others the system, record and profile keys |
| AttributeAccess.FilteredInOrder | crates/bnetcc-storage/src/attr.rs:235-241 | what is shown stays in its order |
| AttributeAccess.WhoMayWrite | crates/bnetcc-storage/src/attr.rs:166-263 | by default credentials, system and record keys are written by the server alone, and all else by owner and staff |
| AttributeAccess.PartitionInOrder | crates/bnetcc-storage/src/attr.rs:247-263 | what is accepted and denied stays in its order |
| AttributeAccess.PartitionIsExact | crates/bnetcc-storage/src/attr.rs:247-263 | each entry is accepted or its key denied, by the write rule, and none is lost |
| AttributeAccess.AttrSchema.Set | crates/bnetcc-storage/src/attr.rs:199-205 | the method takes the rules through the call |
| AttributeAccess.AttrSchema.LookUp | crates/bnetcc-storage/src/attr.rs:209-216 | the loop returns the first match |
| AttributeAccess.AttrSchema.PartitionWritable | crates/bnetcc-storage/src/attr.rs:247-263 | the loop splits the entries in order |

## Left out

- Nls.RightPasswordIsAccepted: says nothing of a wrong password; `NlsBinding` says what a proof that is accepted means, up to collisions of the hash; the hash is a parameter here, and the big-integer power is exponentiation followed by a remainder.
- Png.PngIsReadIff: takes the CRC as a parameter; the product of the sizes, which the code forms in 32 bits, is unbounded here.
- Pack.PackIcons: takes decoded pictures whose total area is below 2^32; the text of `icons.txt`, the reading of PNGs and the file access around it are not modelled, nor the warnings.
- Bni.ParseFile: the order in which warnings are reported and the choice of an icon for a user are not modelled.
- Federation.DeliveredIffSplitSafe: the JSON body is an opaque reversible code; sockets, the greeting and the retry delay are not modelled.
- Sessions.BncsSession: what the state accepts, what handlers do and how long a read may take are parameters; the MCP and line loops differ in their decoder and are covered by `NoFramingSeesReads`.
- WriteBehind.RunsAreTransparentIff: a refused put is one without effect, and the other calls of the backend do not fail on their own.
- ChannelRuns.OperatorsHaveAnOrigin: the rule of a channel is set when it is created, as the node does, and not during a run; which rule a channel name stands for is not modelled.
- Admission.RunsDescribe: counts are unbounded; the per-class and per-address ones cannot overflow below their ceilings, the total could only with 2^32 open connections.
- Flood.WindowBound: the clock is unbounded; the product that saturates at 64 bits is modelled so.
- Keys.KeyRegistry.Release: takes no holder, as in the code; that the caller releases only its own keys is not modelled.
- GameServerLinkRuns.RepliesAreTheirOwn: tasks are not cancelled, memory is sequentially consistent, and sockets, tokens and timers appear only as steps that may or may not be taken.
- BridgeRegistries.RunsKeepInverseIff: the front ends of the bridges, and the memory a name takes, are not modelled.
- Attributes.NormalizeIsCanonical: keys are their UTF-8 bytes; that a byte sequence is valid UTF-8 is not asked.
- Elo ratings, packet tables, statstrings, configuration, policy narrowing, advertisements and ladders would only add easy members.
- SQLite, TLS, Argon2, webhooks and the user interfaces are I/O or foreign code.
