# iv4xr plugin server, belief store and world entity — a Dafny model

This project models three sequential pieces of the iv4xr Space Engineers plugin and its Java agent
framework, and proves properties of each:

- **The plugin server's message router** (`PluginServer.cs`, in the `Comm` and `Communication`
  versions). A message must start with the header `{"Cmd":`. The 12-character command field at
  offset 7 then routes it:
  - `"AGENTCOM` queues a request and then writes one reply taken from `Replies.Take()`;
  - `"SESSION"` goes to the session dispatcher;
  - `"DISCONNECT"` replies `True` and closes the connection;
  - anything else replies `False` and closes it.

  The two versions differ in framing and in the read time-out: the `Communication` server sets a
  20-second `ReadTimeout` on each client stream, and the `Comm` server sets none. The `Comm` server reads 4096-byte chunks and accepts a
  chunk only if its first line feed is its last byte. The `Communication` server reads lines.
  Module `Wire` holds the wire format and the classifier. `Ascii` is the .NET ASCII codec.
  `Routing` states what a message and a whole session do, as functions. `PluginServer.Server` is
  the imperative class: its field `requests` is the request queue, `replies` is the supply that
  `Replies.Take()` draws from, and `effects` records the writes, closes and session dispatches.
  Its methods are proved equal to the `Routing` functions.
- **The agent's belief store** (`BeliefState.java`), module `Belief`. The store keeps a map from
  entity id to entity, a tick counter `lastUpdated` (a Java `int`, so it wraps), and two blocked-node
  structures. Each observation is folded in by `markObservation`. The navigation-mesh intersection
  is the parameter `blockedBy`.
- **The world entity** (`WorldEntity.java`), module `World`. It covers the recursive state
  comparison over a tree of child entities, the one-deep link to a previous state, the recursive
  time stamp, and the typed property getters. Entities are objects with a ghost footprint `Repr`.
  Two predicates describe the tree: `Acyclic()`, which the comparison needs, and `Valid()`, which
  adds that each footprint is exactly the entity plus its descendants.

Three consequences of the router's code that the model keeps:

- `{"Cmd": "SESSION_X"}` is an unknown command. Its 12-character field at offset 7 is
  ` "SESSION_X"`, which begins with a space and so does not start with `"SESSION"`. The server
  replies `False` and closes the connection.
- `Disconnect` replies with .NET `bool.ToString()`, which is `True` or `False`. `ReplyOK` and
  `ReplyFalse` write `true` and `false`.
- A message that has the header but is shorter than 19 characters makes `Substring(7, 12)`
  throw, so it is a fault rather than a route.

## Model

| member | source | states |
|---|---|---|
| Ascii.EncodeDecode | Source/Ivxr.PlugIndependentLib/Comm/PluginServer.cs:97 | Decoding ASCII bytes and encoding the text again gives the same bytes |
| Ascii.DecodeEncode | Source/Ivxr.PlugIndependentLib/Comm/PluginServer.cs:172 | Encoding ASCII text and decoding the bytes again gives the same text |
| Ascii.DecodeNewLineAt | Source/Ivxr.PlugIndependentLib/Comm/PluginServer.cs:97-98 | The decoded text holds '\n' exactly where the chunk holds byte 0x0A, including after bytes above 0x7F become '?' |
| Ascii.Encode | Source/Ivxr.PlugIndependentLib/Comm/PluginServer.cs:172 | One byte per character: the character's code below 128, and `?` (63) for any other character |
| Ascii.Decode | Source/Ivxr.PlugIndependentLib/Comm/PluginServer.cs:97 | One character per byte: the byte's character below 128, and `?` for any byte above 0x7F |
| Wire.Classify | Source/Ivxr.PlugIndependentLib/Comm/PluginServer.cs:119-128 | The route is MissingHeader exactly when the header is absent, and FieldOutOfRange exactly when the header is present but the message is shorter than 19 characters |
| Wire.ClassifyAgentIff | Source/Ivxr.PlugIndependentLib/Comm/PluginServer.cs:128-131 | A message is routed as an agent command iff it is at least 19 characters long and starts with `{"Cmd":"AGENTCOM` |
| Wire.ClassifySessionIff | Source/Ivxr.PlugIndependentLib/Comm/PluginServer.cs:138 | A message is routed as a session command iff it is at least 19 characters long and starts with `{"Cmd":"SESSION"` |
| Wire.ClassifyDisconnectIff | Source/Ivxr.PlugIndependentLib/Comm/PluginServer.cs:142 | A message is routed as a disconnect command iff it starts with `{"Cmd":"DISCONNECT"` |
| Wire.PrefixesExclusive | Source/Ivxr.PlugIndependentLib/Comm/PluginServer.cs:131-152 | No command field starts with two of the three prefixes, so at most one branch can fire |
| Wire.FieldPrefix | Source/Ivxr.PlugIndependentLib/Communication/PluginServer.cs:113-125 | Header test plus field-prefix test is the same as a prefix test on the whole message |
| Wire.CommandField | Source/Ivxr.PlugIndependentLib/Comm/PluginServer.cs:128 | `Substring(7, 12)`: exactly 12 characters, the ones that follow the first 7 of the message |
| Wire.BoolToString | Source/Ivxr.PlugIndependentLib/Comm/PluginServer.cs:157 | The disconnect reply text differs from `ReplyOK`'s and `ReplyFalse`'s text, and agrees with it after the first letter |
| Wire.BoolToStringCapitalised | Source/Ivxr.PlugIndependentLib/Comm/PluginServer.cs:157 | The reply text is `True` or `False`: the first letter is a capital `T` or `F` and the rest is that of `true` or `false` |
| Wire.ReplyBytes | Source/Ivxr.PlugIndependentLib/Comm/PluginServer.cs:169-174 | A reply is the encoded text followed by exactly one 0x0A byte, and an ASCII reply decodes back to the text plus '\n' |
| Wire.IndexOf | Source/Ivxr.PlugIndependentLib/Comm/PluginServer.cs:98 | The result is -1 iff the character is absent; otherwise it is the first position of the character |
| Wire.FrameChunkIff | Source/Ivxr.PlugIndependentLib/Comm/PluginServer.cs:97-105 | A chunk is accepted iff it ends with 0x0A and has no earlier 0x0A; the message is then the whole decoded chunk; the "in parts" fault comes exactly when the chunk has no 0x0A |
| Wire.FrameChunk | Source/Ivxr.PlugIndependentLib/Comm/PluginServer.cs:97-105 | No contract of its own; `Wire.FrameChunkIff` states when a chunk is accepted, what message it yields, and which of the two faults it throws |
| Routing.MissingHeaderDisconnects | Source/Ivxr.PlugIndependentLib/Comm/PluginServer.cs:119-126 | Without the header the server writes `False\n`, closes the stream and stops; nothing is queued |
| Routing.ShortMessageFaults | Source/Ivxr.PlugIndependentLib/Communication/PluginServer.cs:122 | A header-valid message under 19 characters faults and changes nothing |
| Routing.AgentCommandQueued | Source/Ivxr.PlugIndependentLib/Comm/PluginServer.cs:131-137 | An agent command appends exactly one request holding the unmodified message, then takes exactly one reply and writes it to the reply's own stream; the stream stays open. With no reply left, the server blocks |
| Routing.SessionCommandDispatched | Source/Ivxr.PlugIndependentLib/Communication/PluginServer.cs:132-135 | A session command is only dispatched: no request is queued, nothing is written or closed, and reading goes on |
| Routing.DisconnectCommandCloses | Source/Ivxr.PlugIndependentLib/Communication/PluginServer.cs:136-139 | `DISCONNECT` writes `True\n`, closes the stream and stops; nothing is queued |
| Routing.UnknownCommandCloses | Source/Ivxr.PlugIndependentLib/Communication/PluginServer.cs:140-146 | Any other command field writes `False\n`, closes the stream and stops; nothing is queued |
| Routing.Process | Source/Ivxr.PlugIndependentLib/Comm/PluginServer.cs:115-153 | One message never ends the stream; its effect on each route is stated by the six lemmas above it in this table |
| Routing.DisconnectEffects | Source/Ivxr.PlugIndependentLib/Comm/PluginServer.cs:155-160 | No contract of its own; `Routing.DisconnectReplyText` states what it writes and closes |
| Routing.DisconnectReplyText | Source/Ivxr.PlugIndependentLib/Comm/PluginServer.cs:155-160 | `Disconnect` makes two effects on the client stream: a write that decodes to `True\n` or `False\n` as the argument says, then the close |
| Routing.ServeLines | Source/Ivxr.PlugIndependentLib/Communication/PluginServer.cs:93-107 | A session processes at most the lines it is given and never ends in the state "go on reading"; the lemmas below state which line stops it and what it queues, dispatches and writes |
| Routing.ServeLinesStopsAtFirstStop | Source/Ivxr.PlugIndependentLib/Communication/PluginServer.cs:97-105 | Lines are processed in order until the first line that does not let reading go on; every earlier line was an agent or session command; the final status names why the loop stopped; all lines are read only if none stopped it |
| Routing.ServeLinesQueuesAgentLines | Source/Ivxr.PlugIndependentLib/Communication/PluginServer.cs:98-104 | Over a session, the queued requests are exactly the agent-command lines among the lines read, in order |
| Routing.ServeLinesTakesOneReplyPerAgentLine | Source/Ivxr.PlugIndependentLib/Communication/PluginServer.cs:125-131 | One reply is consumed per agent-command line; the session blocks exactly when the agent commands outnumber the available replies |
| Routing.ServeLinesDispatchesSessionLines | Source/Ivxr.PlugIndependentLib/Communication/PluginServer.cs:132-135 | The session dispatcher receives exactly the session-command lines among the lines read, in order |
| Routing.ProcessDispatches | Source/Ivxr.PlugIndependentLib/Comm/PluginServer.cs:138-141 | One message reaches the dispatcher exactly when it is a session command |
| Routing.ServeLinesFramesReplies | Source/Ivxr.PlugIndependentLib/Communication/PluginServer.cs:163-168 | Effects are only appended, and every reply written during a session ends with one line feed |
| Routing.ServeLinesDisconnectIsLast | Source/Ivxr.PlugIndependentLib/Communication/PluginServer.cs:149-154 | A session that ends disconnected ends with the reply to its last message and then the close, with `True` only for `DISCONNECT` |
| Routing.FramedPrefix | Source/Ivxr.PlugIndependentLib/Comm/PluginServer.cs:95-105 | The longest run of well-framed chunks at the front, each decoded; the chunk after the run is ill-framed |
| Routing.ServeChunks | Source/Ivxr.PlugIndependentLib/Comm/PluginServer.cs:90-113 | A session processes at most the chunks it is given and never ends in the state "go on reading"; an empty chunk is a zero-byte read and ends the loop; `Routing.ServeChunksAsLines` relates it to `Routing.ServeLines` |
| Routing.ServeChunksAsLines | Source/Ivxr.PlugIndependentLib/Comm/PluginServer.cs:95-112 | The chunk server behaves like the line server on the decoded well-framed prefix. If the session is still open at the first chunk that is not well framed, a zero-byte read there ends the loop and any other such chunk faults |
| Routing.IllFramedChunkFaults | Source/Ivxr.PlugIndependentLib/Comm/PluginServer.cs:95-105 | A zero-byte read ends the loop with nothing processed; any other ill-framed chunk throws before anything is queued or written, and no later chunk is read |
| Routing.ServeChunksQueuesAgentMessages | Source/Ivxr.PlugIndependentLib/Comm/PluginServer.cs:109-111 | On the chunk server, the queued requests are exactly the agent commands among the messages read |
| PluginServer.Server.Reply | Source/Ivxr.PlugIndependentLib/Comm/PluginServer.cs:169-174 | One write of the reply bytes to the given stream, appended to the effects |
| PluginServer.Server.ReplyOK | Source/Ivxr.PlugIndependentLib/Comm/PluginServer.cs:176-179 | Writes the bytes of `true\n` |
| PluginServer.Server.ReplyFalse | Source/Ivxr.PlugIndependentLib/Comm/PluginServer.cs:181-184 | Writes the bytes of `false\n` |
| PluginServer.Server.Disconnect | Source/Ivxr.PlugIndependentLib/Comm/PluginServer.cs:155-160 | Replies `reply.ToString()`, closes the stream, and reports the connection as disconnected |
| PluginServer.Server.WaitForReplyAndSendIt | Source/Ivxr.PlugIndependentLib/Comm/PluginServer.cs:162-167 | Takes the first reply and writes it to that reply's stream; answers iff a reply was available, and otherwise changes nothing |
| PluginServer.Server.ProcessMessage | Source/Ivxr.PlugIndependentLib/Comm/PluginServer.cs:115-153 | The new queue, reply supply and effects, and the status, are those of `Routing.Process` |
| PluginServer.Server.ServeLineClient | Source/Ivxr.PlugIndependentLib/Communication/PluginServer.cs:93-107 | The line loop ends in the state, status and line count of `Routing.ServeLines` |
| PluginServer.Server.ServeChunkClient | Source/Ivxr.PlugIndependentLib/Comm/PluginServer.cs:90-113 | The buffer loop ends in the state, status and chunk count of `Routing.ServeChunks` |
| PluginServer.Server.ReadInto | Source/Ivxr.PlugIndependentLib/Comm/PluginServer.cs:95 | After the read, the buffer's first `readCount` bytes are the chunk |
| Belief.Wrap | src/main/java/world/BeliefState.java:288 | The result is congruent to the input modulo 2^32 and equals it within the `int` range |
| Belief.Increment | src/main/java/world/BeliefState.java:288 | `lastUpdated++` adds one, except that `Integer.MAX_VALUE` wraps to `Integer.MIN_VALUE` |
| Belief.MinusZero | src/main/java/world/BeliefState.java:126-129 | A wrapped difference is zero exactly when the operands are equal |
| Belief.Minus | src/main/java/world/BeliefState.java:126-129 | `a - b` on Java `int`: the result is congruent to the exact difference modulo 2^32 |
| Belief.AddEntityAsWritten | src/main/java/world/BeliefState.java:226-234 | `addEntity` as written throws a null dereference exactly when the id is new |
| Belief.AddEntityAsWrittenAgreesOnKnownIds | src/main/java/world/BeliefState.java:230-233 | For a known id, the code as written and the corrected insertion agree |
| Belief.AddEntityAsWrittenRejectsFirstSighting | src/main/java/world/BeliefState.java:157-159 | A first sighting (door `door1` in an empty store) throws as written, and the corrected insertion stores it |
| Belief.Stamp | src/main/java/world/BeliefState.java:228 | `newEntity.lastUpdated = this.lastUpdated`: the entity keeps its id, tag and kind and carries the tick |
| Belief.Admit | src/main/java/world/BeliefState.java:226-234 | No contract of its own; `Belief.FirstOccurrenceWins`, `Belief.AbsorbFrame`, `Belief.AbsorbStamps` and `Belief.MaxStampFreezes` state what repeated admission stores |
| Belief.Absorb | src/main/java/world/BeliefState.java:294-295 | No contract of its own; the lemmas in the next rows state which ids it adds, which entries it keeps, and which entity it stores for each id |
| Belief.AbsorbFrame | src/main/java/world/BeliefState.java:294-295 | One observation adds exactly the observed ids and leaves every unobserved entry unchanged |
| Belief.AbsorbStamps | src/main/java/world/BeliefState.java:226-234 | After one observation, every observed id is stored with a stamp at or above the current tick |
| Belief.FirstOccurrenceWins | src/main/java/world/BeliefState.java:226-234 | If every stored stamp is older than the tick, the first entity in the observation with each id is stored, stamped, and later duplicates are ignored |
| Belief.FirstOccurrenceKept | src/main/java/world/BeliefState.java:230-231 | Admitting a later duplicate keeps the entry of an earlier first occurrence |
| Belief.FirstOccurrenceNew | src/main/java/world/BeliefState.java:228-233 | The first occurrence of an id whose stored stamp is older than the tick is stored, stamped |
| Belief.AbsorbKeepsStampsAtMost | src/main/java/world/BeliefState.java:226-234 | One observation at tick `t` stores no stamp above `t`, if none was above it before |
| Belief.MaxStampFreezes | src/main/java/world/BeliefState.java:229-230 | An entry stamped `Integer.MAX_VALUE` is never replaced, whatever the tick, since no tick is above it |
| Belief.WrappedTickFreezes | src/main/java/world/BeliefState.java:226-234 | Once `lastUpdated++` has wrapped to `Integer.MIN_VALUE`, an observation changes no known entry and only adds ids it has not seen before |
| Belief.AbsorbKeyedById | src/main/java/world/BeliefState.java:233 | Every entity stays stored under its own id |
| Belief.RecordBlocked | src/main/java/world/BeliefState.java:310-316 | No contract of its own; `Belief.RecordBlockedFrame` and `Belief.LastInteractiveOccurrenceWins` state which entries it writes and with what |
| Belief.RecordBlockedFrame | src/main/java/world/BeliefState.java:310-316 | Every interactive entity of the observation gets a blocked-node entry, and no other entry changes |
| Belief.LastInteractiveOccurrenceWins | src/main/java/world/BeliefState.java:310-316 | Each blocked-node entry is what the intersection gives for the last interactive entity in the observation with that id |
| Belief.AbsorbKeepsValid | src/main/java/world/BeliefState.java:294-317 | One observation keeps the entity map keyed by id, and keeps every blocked-node entry backed by a known entity |
| Belief.ChangeDetected | src/main/java/world/BeliefState.java:378-391 | No contract of its own; `Belief.ChangeDetectedIff` and `Belief.ChangeDetectedFirstDecides` together fix its result on every input |
| Belief.ChangeDetectedFirstDecides | src/main/java/world/BeliefState.java:380-384 | The first observed entity that changed or clashes decides the result: a clash there (nothing changed or clashed before) throws the cast for that entity, and a change with no clash before it reports a change, whatever clash follows |
| Belief.ChangeDetectedAt | src/main/java/world/BeliefState.java:380-384 | With no clash before position `i`, a change at `i` reports a change, and a clash at `i` with no change before it throws the cast for that entity |
| Belief.ChangeDetectedIff | src/main/java/world/BeliefState.java:378-391 | When no cast fails, a change is reported iff some interactive observed entity is unknown or differs in `isActive`. A cast failure names a clashing entity before which no entity changed or clashed, so it is the first clash |
| Belief.DoorNodesAdd | src/main/java/world/BeliefState.java:362-370 | Visiting one more key adds that key's nodes exactly when its entity is a closed door |
| Belief.ClosedDoorNodes | src/main/java/world/BeliefState.java:358-372 | No contract of its own; `Belief.BeliefState.RecalculateBlockedNodes` proves the rebuilt set equal to it, and `Belief.OpenDoorsBlockNothing` and `Belief.ClosedDoorNodesIff` state which nodes it holds |
| Belief.ClosedDoorNodesIff | src/main/java/world/BeliefState.java:358-372 | The set unfolded: a node is in it iff some key whose stored entity is a closed interactive door lists it |
| Belief.OpenDoorsBlockNothing | src/main/java/world/BeliefState.java:364-370 | A node listed by one key only is blocked iff that key's entity is a closed door |
| Belief.BeliefState.GetEntity | src/main/java/world/BeliefState.java:145-147 | The stored entity for a known id, and null otherwise |
| Belief.BeliefState.GetInteractiveEntity | src/main/java/world/BeliefState.java:148-150 | The cast throws exactly for a known non-interactive entity; otherwise the result is null for an unknown id and the interactive entity for a known one |
| Belief.BeliefState.EvaluateEntity | src/main/java/world/BeliefState.java:156-160 | False for a null id; otherwise the predicate applied to the looked-up entity, which may be absent |
| Belief.BeliefState.EvaluateInteractiveEntity | src/main/java/world/BeliefState.java:162-165 | True iff the id names a known interactive entity that satisfies the predicate |
| Belief.BeliefState.KnownInteractiveEntities | src/main/java/world/BeliefState.java:63-68 | Exactly the stored entities that are interactive |
| Belief.BeliefState.constructor | src/main/java/world/BeliefState.java:35-53 | The field initialisers: no position or velocity, no entities, tick -1, `didNothingPreviousTurn` false, no blocked nodes; the store is valid and no stamp is above the tick |
| Belief.BeliefState.KnownButtons | src/main/java/world/BeliefState.java:92-96 | Exactly the known interactive entities whose id starts with `b` or `B` |
| Belief.BeliefState.KnownDoors | src/main/java/world/BeliefState.java:111-115 | Exactly the known interactive entities tagged `Door` |
| Belief.BeliefState.Age | src/main/java/world/BeliefState.java:126-129 | Null for a null entity; otherwise `lastUpdated - e.lastUpdated` modulo 2^32 |
| Belief.BeliefState.AgeById | src/main/java/world/BeliefState.java:131 | Null for an unknown id; otherwise the age of the stored entity |
| Belief.BeliefState.UpToDateIffAgeZero | src/main/java/world/BeliefState.java:404-408 | An entity is up to date exactly when it is non-null and its age is zero |
| Belief.BeliefState.GetNodesBlockedByEntity | src/main/java/world/BeliefState.java:134-136 | The recorded nodes for a known id, and an empty list otherwise |
| Belief.BeliefState.IsOnById | src/main/java/world/BeliefState.java:170-183 | True iff the id names a known active interactive entity; the cast throws exactly for a known non-interactive entity |
| Belief.BeliefState.AddEntity | src/main/java/world/BeliefState.java:226-234 | The map becomes that of the corrected insertion: the entity is stamped and stored unless the stored entry's stamp is already at or above the tick |
| Belief.BeliefState.AnyInteractiveEntityChanged | src/main/java/world/BeliefState.java:378-397 | The early-return loop returns the change result of `ChangeDetected` on the stored entities |
| Belief.BeliefState.RecalculateBlockedNodes | src/main/java/world/BeliefState.java:358-372 | Finishes iff no visited key's entity fails the cast; on success the blocked set is the union of the closed doors' nodes; on a cast failure it names a failing key, and the set holds only closed-door nodes. In a valid store a rebuild that finishes has found a stored interactive entity under every key |
| Belief.BeliefState.AbsorbObservation | src/main/java/world/BeliefState.java:294-317 | The entity loop leaves the maps of `Absorb` and `RecordBlocked` and keeps the store valid |
| Belief.BeliefState.MarkObservation | src/main/java/world/BeliefState.java:280-332 | A null observation throws and changes nothing. Otherwise it copies position, velocity and `didNothing`, and increments the tick. It checks for changes against the entities as they were, then absorbs the entities. It rebuilds the blocked set only when a change was reported, and keeps the store valid. While no stored stamp is above the tick and the tick is below `Integer.MAX_VALUE`, no stamp stays above the new tick, and on a successful change check the first observed entity with each id is stored, stamped |
| World.Equal | src/main/java/eu/iv4xr/framework/world/WorldEntity.java:59-62 | null equals only null; otherwise values are compared by equality |
| World.SameSizeSubmap | src/main/java/eu/iv4xr/framework/world/WorldEntity.java:67-73 | Equal sizes plus every entry found with an equal value in the other map make the maps equal |
| World.NatToStringRoundTrip | src/main/java/eu/iv4xr/framework/world/WorldEntity.java:100 | The decimal string of a non-negative integer parses back to it |
| World.CanonicalDecimalUnique | src/main/java/eu/iv4xr/framework/world/WorldEntity.java:100 | Two canonical decimal strings that read as the same number are the same string |
| World.ValueToString | src/main/java/eu/iv4xr/framework/world/WorldEntity.java:97-101 | A Boolean prints as `true` or `false` in lower case as its value says; an integer prints as canonical decimal digits (no leading zero other than in `0`) reading back as the value, after a `-` exactly when it is negative; a string prints as itself |
| World.IntToString | src/main/java/eu/iv4xr/framework/world/WorldEntity.java:100 | The string is non-empty and starts with '-' exactly for negative values; after the sign come canonical decimal digits, with no leading zero other than in `0`, that read back as the magnitude |
| World.IntToStringPinned | src/main/java/eu/iv4xr/framework/world/WorldEntity.java:100 | Any string meeting the contract of `World.IntToString` is its result, so that contract fixes the text of `Integer.toString` |
| World.WorldEntity.constructor | src/main/java/eu/iv4xr/framework/world/WorldEntity.java:47-57 | The fields hold the arguments; the time stamp is -1; there is no position, velocity, extent, property, child or previous state |
| World.WorldEntity.State | src/main/java/eu/iv4xr/framework/world/WorldEntity.java:64-83 | No contract of its own: the recursive state (fields, properties, and the child states by key) that `World.WorldEntity.HasSameStateIff` proves the comparison compares; `World.WorldEntity.EqualStateParts` states what two equal states have in common |
| World.WorldEntity.HasSameState | src/main/java/eu/iv4xr/framework/world/WorldEntity.java:64-83 | No contract of its own; `World.WorldEntity.HasSameStateIff`, `SameStateEqual` and `EqualStateSame` tie it to equality of `State()` |
| World.WorldEntity.HasSameStateIff | src/main/java/eu/iv4xr/framework/world/WorldEntity.java:64-83 | Two entities have the same state exactly when their recursive states are equal: same fields, same property map, same child keys, and recursively the same child states |
| World.WorldEntity.SameStateEqual | src/main/java/eu/iv4xr/framework/world/WorldEntity.java:64-83 | The early-return comparison succeeding implies equal recursive states |
| World.WorldEntity.EqualStateSame | src/main/java/eu/iv4xr/framework/world/WorldEntity.java:64-83 | Equal recursive states imply that the comparison succeeds |
| World.WorldEntity.EqualStateParts | src/main/java/eu/iv4xr/framework/world/WorldEntity.java:65-77 | Equal recursive states mean equal position, velocity, extent and properties, equal child keys and counts, and equal child states |
| World.WorldEntity.SameStateReflexive | src/main/java/eu/iv4xr/framework/world/WorldEntity.java:64-83 | Every entity has the same state as itself |
| World.WorldEntity.LinkPreviousState | src/main/java/eu/iv4xr/framework/world/WorldEntity.java:118-121 | `previousState` becomes `e`, and `e`'s own previous state is cleared, so the history is at most one deep; linking an entity to itself leaves no history |
| World.WorldEntity.HasChangedState | src/main/java/eu/iv4xr/framework/world/WorldEntity.java:129-132 | True iff there is no previous state or its recursive state differs from this one's |
| World.WorldEntity.AssignTimeStamp | src/main/java/eu/iv4xr/framework/world/WorldEntity.java:137-140 | Every object of the tree (this entity and every descendant) carries the new stamp, and only time stamps change |
| World.WorldEntity.StampedFootprint | src/main/java/eu/iv4xr/framework/world/WorldEntity.java:137-140 | A stamped footprint means this entity and every child, recursively, carry the stamp |
| World.WorldEntity.GetProperty | src/main/java/eu/iv4xr/framework/world/WorldEntity.java:85-87 | The stored value for a known name, and null otherwise |
| World.WorldEntity.GetBooleanProperty | src/main/java/eu/iv4xr/framework/world/WorldEntity.java:89-95 | True iff the property is the Boolean true; false iff it is missing or the Boolean false; otherwise an error naming the entity and the property |
| World.WorldEntity.GetStringProperty | src/main/java/eu/iv4xr/framework/world/WorldEntity.java:97-101 | Null iff the property is missing; a string property is returned as it is; a Boolean property gives `true` or `false` in lower case |
| World.WorldEntity.GetIntProperty | src/main/java/eu/iv4xr/framework/world/WorldEntity.java:103-108 | The value iff the property is an Integer; otherwise an error naming the entity and the property |
| World.WorldEntity.IntPropertyAsString | src/main/java/eu/iv4xr/framework/world/WorldEntity.java:97-108 | The string form of an integer property is its canonical decimal text: digits alone for a non-negative one, a `-` and the magnitude's digits for a negative one, with no leading zero other than in `0`, reading back as the integer |

## Left out

- Sockets, the listener thread, `m_shouldStop`, read timeouts and the `IOException` handler are left out (I/O and concurrency). A session is the sequence of lines or chunks it reads, and streams are opaque handles.
- `Replies.Take()` is a finite supply of replies given up front. An empty supply means the server blocks for good, which is the status `AwaitingReply`.
- `StreamReader.ReadLine` splitting of the byte stream is left out. The line server takes the lines it returns.
- The session dispatcher, the request queue's consumer and the log are left out, since their code is not part of this model. Dispatches are recorded as effects, and log lines are dropped.
- `string.StartsWith` is modelled as an ordinal comparison. Culture-sensitive comparison is not modelled.
- Null values are not modelled, apart from the null id that `evaluateEntity` answers with false (`BeliefState.java:158`). In the code `addEntity` stores an entity with a null id under the null key (`BeliefState.java:233`); `knownButtons` (`BeliefState.java:92-95`) then throws `NullPointerException` at `e.id.startsWith("b")` in `isButton` (`BeliefState.java:79`) when that entity is interactive. A property stored as null reads as missing in `getBooleanProperty` and `getStringProperty` (`WorldEntity.java:91, 99`), and makes `getIntProperty` throw `IllegalArgumentException` (`WorldEntity.java:105-106`). A null element of `observation.entities` is skipped by the `instanceof` filter of `anyInteractiveEntityChanged` (`BeliefState.java:395-397`) and throws `NullPointerException` at `newEntity.lastUpdated = ...` in `addEntity` (`BeliefState.java:228`). Further `NullPointerException`s come from `P.getValue().equals(q)` in `hasSameState` meeting a null value (`WorldEntity.java:72`), from a null tag, and from a null argument to `hasSameState`.
- Belief.BeliefState.MarkObservation: once `lastUpdated` has reached `Integer.MAX_VALUE`, the tick wraps to `Integer.MIN_VALUE` and the stamp bound no longer holds, so the first-occurrence clause is not promised from then on. `Belief.MaxStampFreezes` states that an entry stamped `Integer.MAX_VALUE` is never replaced. `Belief.WrappedTickFreezes` states that at the first wrapped tick no known entry is replaced. As the wrapped tick climbs, `addEntity` replaces an entry again once the tick is above that entry's stamp.
- `knownButtons`, `knownDoors` and `knownInteractiveEntities` return sets. The order of the Java lists follows `HashMap` iteration and is not modelled.
- The `knownButtons_sortedByAgeAndDistance` and `knownDoors_sortedByAgeAndDistance` sorts are left out, along with `compareAgeDist`, `distanceTo`, `withinRange` and `canInteractWith`, because they rest on floating-point distances.
- The public fields `id`, `position` and `velocity` of `BeliefState` (`BeliefState.java:28-30`): `position` and `velocity` are modelled as the values `markObservation` copies from the observation; the agent `id` is left out, since no modelled operation reads or writes it.
- The field `receivedPing` is left out, since no modelled operation reads or writes it; the `mentalMap` field is covered by the next two lines.
- The mental-map calls (`findPathTo`, `canReach`, `updateKnownVertices`, `updateCurrentWayPoint`, `getUnknownNeighbourClosestTo`) are left out.
- The `NullPointerException` of `mentalMap.pathFinder.navmesh` when no mental map is set is left out. The navigation-mesh intersection is the parameter `blockedBy`.
- Belief.BeliefState.MarkObservation: entities are values, so the stamping of the observation's own entity objects (`newEntity.lastUpdated = ...`) and any aliasing between observation and store are not modelled.
- Belief.BeliefState.MarkObservation: the observation loop uses the corrected `addEntity` (see Findings). When a change was detected, the rebuild is the only step that can throw.
- `Belief.BeliefState.RecalculateBlockedNodes` visits keys in an unspecified order, since `HashMap` order is not modelled. On a cast failure it states only that the partial set holds closed-door nodes, not which ones.
- `World.WorldEntity.HasSameState`: property values of other classes are compared by their text only; the `equals` of arbitrary `Serializable` classes is not modelled.
- The `long` time stamp of `WorldEntity` is an unbounded integer. It is only ever assigned, so wrap-around does not arise.
- `isBlocking`, which only throws `UnsupportedOperationException`, is left out.
- `Belief.BeliefState.IsDoor`, `IsButton`, `EntityIsUpToDate`, `IsOn` and `World.WorldEntity.IsMovingEntity` are predicates whose definitions are their whole contract. Their properties are stated through `KnownDoors`, `KnownButtons`, `UpToDateIffAgeZero` and `IsOnById`.

## Findings

| source | as written | input that shows it | evidently intended | confidence | as-written member | corrected member |
|---|---|---|---|---|---|---|
| src/main/java/world/BeliefState.java:157-159, 230 | `addEntity` asks `evaluateEntity(newEntity.id, original -> original.lastUpdated >= newEntity.lastUpdated)`. `evaluateEntity` tests `id == null` instead of the looked-up entity, so the predicate dereferences `null` for an id the store does not know | any observation holding an entity the store has not seen, e.g. door `door1` in an empty store | a new id is stored, stamped with the current tick | not executed | Belief.AddEntityAsWritten, Belief.AddEntityAsWrittenRejectsFirstSighting | Belief.Admit, Belief.FirstOccurrenceWins, Belief.BeliefState.AddEntity |
