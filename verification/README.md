# The networking core of the card-game server, verified

This project models the networking core underneath the game server and its client, and proves what
that core is for:

- the **framed message channel**: two endpoints, each with an io queue, a write deque, one reused read
  buffer and a handler queue, joined by two byte streams (`Channels`, `Sessions`);
- the **two codecs**, for client frames and for server-to-server frames, and how they compose
  (`UserBuffers`, `PipeBuffers`);
- **login, session registration and close** on the logic thread (`Logins`, `LogicThread`);
- **keep-alive and the re-arming timers** (`KeepAlive`, `Timers`);
- **MurmurHash64 and HashCode** (`Words`, `Murmur`, `HashCodes`) and the **consistent-hash ring** (`Rings`).

`Bytes` holds what they share: machine integers, little-endian numbers, C strings and memcpy.

Objects that the code changes in place are classes here (`UserBuffer`, `PipeBuffer`, `Session`, the three
managers, `LogicThread`, `TimerManager`, `ConsistentMap`, the two clocks). The methods of the protocol
objects are proved to do exactly what a step of a state machine over plain values does (`Channels.Act`,
`Logins.Step`, `Timers.Step`), and the safety properties are proved of every run of that machine, over
arbitrary interleavings. Buffers are real arrays with offsets, tied to sequences.

How the outside world appears:

- An asynchronous write moves its bytes to the stream in pieces of any size, at any time, and then
  completes, fails or is aborted. An asynchronous read takes what has arrived in pieces of any size. Each of
  these, each post and each close is a separate event, and a run is any sequence of events.
- Io services are FIFO queues of posted jobs, run one at a time. The io threads appear only as the
  arbitrary order in which they post.
- Clocks are parameters, in milliseconds. The code reads them in whole seconds.
- A payload is a sequence of bytes and a type name a NUL-free string of bytes. A serialised message is
  whatever bytes the serialiser produced.

Where the code and its comments, or the evident intent, differ, the model follows the code:

- `Buffer::SizeValid` compares the body with the size of the whole buffer, header included
  (`UserBuffers.SizeTestMeansFits` says for which 16-bit sizes this matters), and looks only at the low 16 bits of a
  32-bit size (`PipeBuffers.PipeSizeTestMeansFits` says for which sizes this matters, and
  `PipeBuffers.LegalFrameRefused` names a frame that encodes and is then refused).
- The frame layouts document a checksum, but no code computes or checks it. Its four bytes keep what the
  buffer held before.
- The payload length that `PipeBuffer::Decode()` computes does not subtract the session id and the two
  id fields. `PipeBuffers.DirectRoundTrip` shows that everything else it finds is what was encoded and how much too
  long that length is, and `PipeBuffers.DecodersAgree` compares it with the relay path.
- `HashCode` is documented as a polynomial modulo `mod`, but works in 32 bits. `HashCodes.HashCodeMeetsDocumentation`
  says for exactly which `mod` the two agree on every ASCII string.
- A server session closes on a message name that is not registered; the client only logs it. `Policy` in
  `Channels` covers both.
- The user table stays in step with the live sessions only if the callers keep guards that the code does not check.
  `Logins.GuardIsExact` and `Logins.RunIsExact` say exactly which, and `Logins.SecondLoginLeaks` shows a run that
  breaks one. Likewise for the session table: `Logins.IdGuardIsExact`, `Logins.TableRunIsExact` and, for a timer that
  ticks before its session is registered, `Logins.EarlyTickLeaks`.

## Model

| member | source | states |
|---|---|---|
| Channels.ChannelDelivers | common/session.h:47-113 | In every run of two endpoints, with any interleaving of posts, partial writes, arrivals, completions, failures, aborts and closes in both directions: the handler jobs posted are exactly the registered messages among a prefix of those written by the peer, in order; at most one write is outstanding and it is for the front of the deque; and no check of the reader ever rejects a frame of the peer's encoder or lets a body overrun the buffer |
| Channels.ChannelComplete | common/user_processor.h:51-110 | In both directions: when all bytes written have been read and handled, the messages handled are all those written with a registered name, and simply all those written if every name is registered |
| Channels.WriterKept | common/session.h:97-113 | Every step, failures included, keeps the writer's invariant: the frames written are those popped, then those in the deque, then those queued, and the stream holds the popped frames and a part of the front one |
| Channels.OutIsPrefix | common/pipe.h:116-131 | The bytes on the stream are always a prefix of the frames written, so no frame is skipped or torn, whatever failed |
| Channels.ReaderKept | common/session.h:58-95 | Every step keeps the reader's invariant: the read buffer holds a prefix of exactly the frame being read, at the place in the peer's stream where that frame stands |
| Channels.BodyRead | server/user_session.cpp:74-100 | A completed body in the reused buffer decodes to exactly the message its frame was made of |
| Channels.RunKeeps | common/pipe.h:78-131 | Both directions' invariants hold together in every run |
| Channels.SenderWorks | common/session.h:97-113 | Without failure or close, each effective step of the sender's jobs and writes leaves strictly less work |
| Channels.ReceiverWorks | common/session.h:58-95 | The same for arrivals, headers and bodies at the receiver |
| Channels.NotStuck | common/session.h:47-113 | While a written message is unhandled, some step of the machinery is effective: the alternation of header and body reads and the single outstanding write never deadlock |
| Channels.Drains | common/pipe.h:49-131 | From every reachable state finitely many steps of the two machines handle everything written in each direction that is healthy, in either one alone or in both at once |
| Channels.EverySchedule | common/session.h:47-113 | From a reachable state with both directions healthy, no schedule of effective machine steps is longer than the work there was, and every schedule that cannot go on has handled everything written in both directions |
| Channels.EverythingDelivered | common/server.h:42-56 | Whatever two new endpoints want to send each other in names the other knows, some run from the very start, reading started by acceptor and connector, ends with each having handled exactly what the other wrote |
| Channels.ReadingStarts | common/pipe.h:61-76 | Once both ends have called DoReadHeader, both directions are healthy |
| Channels.Progress | common/session.h:47-113 | A step towards that in one direction strictly lowers its work and leaves the other direction healthy and its work the same |
| Channels.EveryCloseCloses | common/session.h:38-45 | In every run, however often Close is called and from wherever, each call has run OnClose at once and runs OnClosed once, then or later; the socket is open until the first OnClosed |
| Channels.ClosesExactly | common/session.h:64-133 | A step closes, once, if and only if it is a call of Close, a write or read that fails without being aborted, a refused header, a body that does not decode or a name the policy refuses; a refusal or read error ends the reading, a failed write leaves the deque as it was |
| Channels.ClosedForCause | common/session.h:38-133 | In every run each endpoint has closed once for each such step and for nothing else, and once its jobs have all run its socket is open if and only if there was none |
| Channels.OverForEver | common/session.h:97-113 | In every run a closed socket moves no more bytes, a reading that stopped reads and handles nothing more, and after a failed write no later frame is ever written |
| Channels.BodyReadOverruns | common/session.h:64-83 | A header that passes the size test starts a body read past the end of the buffer if and only if it says 16383 or 16384 |
| Sessions.Session.SendMsg | server/user_session.cpp:36-39 | Posting encodes into a fresh buffer and queues exactly that message's frame |
| Sessions.Session.Close | common/session.h:38-45 | Close calls OnClose and posts the job that closes the socket and calls OnClosed |
| Sessions.Session.DoReadHeader | common/session.h:58-63 | Reading stands at the start of a header; on a new session this is the step with which reading starts |
| Sessions.Session.RunNextJob | common/session.h:49-55 | A queued write is appended to the deque and starts a write only when the deque was empty; a queued close closes the socket and calls OnClosed |
| Sessions.Session.OnWritten | common/session.h:103-112 | Success pops the front frame and starts the next; failure pops nothing; only a failure that is not an abort closes (ClosesExactly says so of the step) |
| Sessions.Session.Fill | common/session.h:60-63 | A read fills the one reused buffer in place, header at its start and body behind it |
| Sessions.Session.OnHeaderRead | common/session.h:64-70 | A header that passes the size test starts a body read of that size; any other closes |
| Sessions.Session.OnBodyRead | server/user_session.cpp:74-100 | A body is decoded in place and, if that succeeds, the time noted, its name looked up and a copy of its payload posted; an unregistered name closes a server session, and a client reads on, without a look at the payload; the buffer is left as it was |
| UserBuffers.UserBuffer.constructor | common/buffer.h:23 | A new buffer is all zeros |
| UserBuffers.UserBuffer.FromMessage | common/user_buffer.cpp:17-19 | A buffer made from a message starts with exactly its frame, checksum zero |
| UserBuffers.UserBuffer.Size | common/buffer.h:27-29 | Header and body size, wrapped to 16 bits |
| UserBuffers.UserBuffer.SizeValid | common/buffer.h:44-55 | Accepts exactly the bodies of 1 to 16384 bytes |
| UserBuffers.UserBuffer.Encode | common/user_buffer.cpp:55-83 | Encoding writes the header, counted name and payload at the front and leaves every other byte, the checksum included, as it was |
| UserBuffers.UserBuffer.Decode | common/user_buffer.cpp:21-53 | Which frames are refused, and the offsets and wrapping size that are left behind |
| UserBuffers.PartsOf | common/user_buffer.cpp:55-83 | At which absolute places a frame holds its size, its name's length and NUL, its name and its payload |
| UserBuffers.FieldsOf | common/user_buffer.cpp:21-46 | A frame within its own length is accepted if and only if its name size is at least 2 and counts a final NUL; where name, payload and checksum are found; what a refusal leaves |
| UserBuffers.SizeWraps | common/user_buffer.cpp:42 | In an accepted frame shorter than its name says, the payload length wraps around to 2^64 less the shortfall |
| UserBuffers.RoundTrip | common/user_buffer.cpp:21-83 | An encoded frame in a buffer with arbitrary other contents reads back as exactly its name, payload and size |
| UserBuffers.ParsedIsWritten | common/user_buffer.cpp:21-83 | Conversely, a frame that stays within its length and names its message without inner NUL parses to a message if and only if it is the encoding of that message |
| UserBuffers.StaleBytesIrrelevant | common/user_buffer.cpp:21-53 | What a reused buffer holds behind the frame decides neither the answer nor the name or payload |
| UserBuffers.SizeTestMeansFits | common/buffer.h:44-55 | The test on a buffer agrees with its body fitting behind the header if and only if its header says neither 16383 nor 16384 |
| PipeBuffers.PipeBuffer.SizeValid | common/buffer.h:44-55 | Accepts exactly the sizes whose low 16 bits are not all zero |
| PipeBuffers.PipeSizeTestMeansFits | common/buffer.h:44-55 | For exactly which 32-bit sizes the 16-bit test says whether the body fits: up to the capacity all but the positive multiples of 65536, above it those multiples only |
| PipeBuffers.DirectSizeTest | common/buffer.h:44-55 | The frame of any message encoded directly passes the test if and only if its body is not a multiple of 65536 bytes long |
| PipeBuffers.LegalFrameRefused | common/buffer.h:44-55 | A message within every bound of the encoder whose frame every receiver refuses |
| PipeBuffers.PipeBuffer.EncodeDirect | common/pipe_buffer.cpp:163-231 | Writes size, session id, both ids, name and payload at the front in place, and nothing else |
| PipeBuffers.PipeBuffer.EncodeRelay | common/pipe_buffer.cpp:242-289 | Writes size, session id, both ids and the client frame's body at the front in place, and nothing else |
| PipeBuffers.PipeBuffer.Decode | common/pipe_buffer.cpp:94-161 | Which frames are refused, and the pointers and wrapping length that are left behind |
| PipeBuffers.PipeBuffer.DecodeInto | common/pipe_buffer.cpp:42-92 | Which frames are refused, and that the rest of an accepted one is copied behind the client buffer's header with its size, the pipe buffer unchanged |
| PipeBuffers.RouteRecovered | common/pipe_buffer.cpp:42-79 | Decoding any frame that starts with an encoded route gives back the session id and both ids, an empty id as a null pointer |
| PipeBuffers.RouteIsEncoded | common/pipe_buffer.cpp:94-131 | A frame starts with the encoding of a route if and only if its head is accepted, the route is what a reader sees and its size bytes count the whole ids |
| PipeBuffers.HeadAccepted | common/pipe_buffer.cpp:47-79 | The head is accepted if and only if each id is empty or ends in the NUL that its size counts; which pointers acceptance and refusal leave |
| PipeBuffers.PipeFieldsOf | common/pipe_buffer.cpp:133-156 | Behind an accepted head the name is accepted if and only if its size is at least 2 and counts a final NUL; which pointers and length acceptance and refusal leave |
| PipeBuffers.RelayTransparent | common/pipe_buffer.cpp:242-289 | Wrapping a client frame and unwrapping it gives it back byte for byte together with its route, and leaves the rest of the client buffer alone; the wrapped body is at most 16898 bytes and passes the size test |
| PipeBuffers.EncodingsCommute | common/pipe_buffer.cpp:163-289 | Direct encoding and relaying the client encoding give the same frame if and only if the type name is not empty and the unwritten checksum bytes were the same in both buffers |
| PipeBuffers.DirectRoundTrip | common/pipe_buffer.cpp:94-231 | Decode finds in any frame of a named message encoded directly, of whatever length and whatever else the buffer holds, its session id, ids, name and payload; the payload length it leaves is too long by exactly the length of the route, 6 + appid_size + user_id_size |
| PipeBuffers.DirectIsWritten | common/pipe_buffer.cpp:94-231 | Conversely, a frame starts with the direct encoding of a named message if and only if Decode accepts it, its sizes are the message's, and route, name and payload are what a reader sees |
| PipeBuffers.DecodersAgree | common/pipe_buffer.cpp:81-156 | Both decoding paths accept the same frames, among those whose message fits a client buffer, and find the same name and payload under the corrected length; the code's length exceeds it by exactly 6 + appid_size + user_id_size |
| PipeBuffers.RelayedMessageDecodes | common/pipe_buffer.cpp:42-161 | Every message encoded for a client and relayed gives such a frame, and each path gives the message back from it |
| Logins.LoginsExclusive | server/user_session_processor.cpp:36-69 | In every run, with no assumption on clients or threads, between two successful Normal logins of one uid the logic thread deleted that user; and the table holds exactly the users logged in and not deleted since |
| Logins.JobsRunInOrder | common/user_processor.h:68 | In every run the jobs run and the jobs still queued are, in order, exactly those that OnAccept, Dispatch and OnClose posted, with the same session, login type and uid |
| Logins.EveryLoginAnswered | server/user_session_processor.cpp:36-69 | In every run each login job run has had one answer, for its session, type and uid, in order |
| Logins.UsersAsked | server/user_session_processor.cpp:42-56 | In every run whoever is in the user table asked for it by a Normal login under that uid |
| Logins.GuardIsExact | server/user_session.cpp:53-62 | A job keeps the user table equal to the live sessions' users, one each, if and only if a check on the state before it holds |
| Logins.RunIsExact | server/user_session.cpp:53-62 | The user table stays equal to the live sessions' users all through a run if and only if every job that the run executes passes that check |
| Logins.UsersConserved | server/user_session_processor.cpp:42-62 | With disciplined callers, in every interleaving the table is exactly the live sessions' users; when all have closed and the queue has drained it is empty, and so is the session table if the timers are timely and the ids have not wrapped |
| Logins.SecondLoginLeaks | server/user_session_processor.cpp:46-62 | Without that discipline conservation fails: a session that logs in under two names and closes leaves the first in the table |
| Logins.IdsAssigned | server/user_session_manager.cpp:18-31 | In every run the n-th session added, be it the only or the last one, has id ((n-1) mod (2^32-1)) + 1, never 0, and a session not yet added has id 0 |
| Logins.IdsRepeat | server/user_session_manager.cpp:21-26 | Two sessions have the same id if and only if they were added a multiple of 2^32-1 additions apart |
| Logins.ClosesOwnId | server/gameserver.cpp:33-38 | Since registration is posted before reading starts, every login job runs after its own session got its id, in every run; so does every close job if no timer ticks before its session's OnAccept |
| Logins.IdGuardIsExact | server/user_session_manager.cpp:18-38 | Adding or deleting a session, early or repeated closes included, keeps the table exact if and only if a check on the state before it holds |
| Logins.TableRunIsExact | server/user_session_manager.cpp:18-38 | In any run the table stays exact all through if and only if every job executed passes that check |
| Logins.TableExactBeforeWrap | server/user_session_manager.cpp:18-38 | Until all ids have been used once, and with timely timers, the table holds exactly the sessions added and not deleted, in every run, repeated closes included |
| Logins.EarlyTickLeaks | common/server.h:47-50 | If a timer closes a session between Init and OnAccept, the session is registered after its close has run and stays in the table with no job queued to remove it |
| LogicThread.UserManager.AddUser | server/user_manager.cpp:16-23 | Adds unless the uid is there, and says which |
| LogicThread.UserManager.FindUser | server/user_manager.cpp:25-32 | Finds exactly the users in the table |
| LogicThread.UserManager.DelUser | server/user_manager.cpp:34 | Removes that user and no other |
| LogicThread.UserSessionManager.AddSession | server/user_session_manager.cpp:18-31 | Counts up in 32 bits skipping 0, gives the session the id, and keeps a session already there under it |
| LogicThread.UserSessionManager.DelSession | server/user_session_manager.cpp:33-38 | Removes that id and no other |
| LogicThread.UserSessionManager.GetSession | server/user_session_manager.cpp:40-49 | Finds exactly the sessions in the table whose object is still alive |
| LogicThread.UserSession.Init | server/user_session.cpp:28-34 | Arms one timer of five seconds |
| LogicThread.LogicThread.Accept | common/server.h:47-48 | A new session, its timer running, that no job knows yet; a step of the machine |
| LogicThread.LogicThread.OnAccept | server/gameserver.cpp:33-38 | The registration of the session accepted last is posted; a step of the machine, before which nothing can be dispatched for it |
| LogicThread.LogicThread.DoAccept | common/server.h:45-50 | The two in order |
| LogicThread.LogicThread.DispatchLogin | common/user_processor.h:60-68 | The job posted is the request's, with its session, type and uid; a step of the machine |
| LogicThread.LogicThread.OnClose | server/user_session.cpp:53-62 | Every wait of the session's timer is cancelled and the close job posted; a step of the machine |
| LogicThread.LogicThread.LoginReqHandle | server/user_session_processor.cpp:36-69 | What a login does to the table and the session, and the reply, for every type and every earlier state |
| LogicThread.LogicThread.RunAdd | server/gameserver.cpp:33-38 | Running a registration job on the objects is one step of the machine |
| LogicThread.LogicThread.RunLogin | server/user_session_processor.cpp:36-69 | Running a login job on the objects is one step of the machine |
| LogicThread.LogicThread.RunClose | server/user_session.cpp:53-62 | Running a close job on the objects is one step of the machine |
| LogicThread.LogicThread.RunNextJob | common/user_processor.h:68 | The logic thread takes the jobs one at a time from the head of its queue and answers each login; a step of the machine |
| Timers.TimerManager.Run | common/asio_timer.h:54-62 | Arms every timer once |
| Timers.TimerManager.Stop | common/asio_timer.h:64-70 | Cancels every outstanding wait, and cannot reach handlers already queued |
| Timers.TimerManager.OnTimer | common/asio_timer.h:73-84 | Unless aborted, re-arms and then calls the function, which may call Stop; a step of the machine |
| Timers.OneWaitAlways | common/asio_timer.h:54-84 | After one Run, in every run each timer has at most one outstanding or queued wait, each expiry that was not aborted has led to exactly one call or is the one still queued, and each wait's handler has run once or is still to run |
| Timers.AlwaysRearmed | common/asio_timer.h:77-82 | In every run in which nobody calls Stop, each timer always has exactly one wait outstanding or expired, none aborted, and every expiry before it has called the function |
| Timers.EveryPeriodCalls | common/asio_timer.h:73-84 | From every such state k more periods of a timer call its function exactly k times more and touch no other timer |
| Timers.ArmingReplaces | common/asio_timer.h:76-77 | Arming a timer whose wait is outstanding ends that wait aborted and leaves one that can call |
| Timers.StopInsideEnds | server/user_session.cpp:53-54 | Stop called by a timer's own function ends it, since re-arming comes first: it is never called again in any run |
| Timers.StopInsideEndsOthers | common/asio_timer.h:64-70 | That Stop ends each other timer in all runs if and only if no expired handler of it is already queued |
| Timers.StopOutsideEnds | common/asio_timer.h:64-84 | Stop called from elsewhere ends a timer in all runs if and only if no expired handler of it is already queued |
| KeepAlive.SessionClock.CheckAlive | server/user_session.cpp:41-51 | Closes exactly when the clock in seconds is at least five beyond the last message |
| KeepAlive.ClientClock.SendPingMsg | client/gameclient.cpp:95-112 | Writes a ping exactly when the clock in seconds is at least two beyond the last write |
| KeepAlive.HarmlessSilence | server/user_session.cpp:41-51 | A silence is tolerated whenever it begins if and only if it lasts at most 4 s |
| KeepAlive.FatalSilence | server/user_session.cpp:41-51 | A silence is found fatal whenever it began if and only if it has lasted 5 s |
| KeepAlive.SurePing | client/gameclient.cpp:95-103 | A tick pings whenever the last write was if and only if that was at least 2 s ago |
| KeepAlive.SilentSessionCloses | server/user_session.cpp:28-51 | A silent session is closed by a check less than 10 s after its last message, and by none within 4 s |
| KeepAlive.FirstTicks | server/user_session.cpp:21-34 | A client that has written nothing pings at its first tick, and a server that has heard nothing closes at its first check |
| KeepAlive.ClientNeverEvicted | client/gameclient.cpp:82-112 | In every run, whatever else the client writes, whatever the delay and what each end's clock says, whether the server accepts before or after the client has connected, and with the delay varying by a jitter that fits the phases of the two timers: the client's writes are less than 4 s apart, its messages are read at most that and the jitter apart, and it is never evicted after its first one |
| KeepAlive.ToleratedJitter | server/user_session.cpp:41-51 | For a client whose ticks fall p ms into the second of its own clock and a server whose checks fall q ms into that of its own, no run evicts the client, over all delays, clocks and times of accepting and connecting in either order, if and only if the jitter is at most 1000 + q - p ms |
| Murmur.MurmurHash64 | common/utility.cpp:35-80 | The loop and the fall-through switch compute the fold over the key's little-endian words and its leftover word, finished |
| Murmur.HashedIsReference | common/utility.cpp:35-80 | The hash of every key equals an independent definition in plain arithmetic: the start from length and seed, the blocks in order, the leftover word and the final mixing, with multiplier and shift written out |
| Murmur.HashesInPlain | common/utility.cpp:82-90 | The two hashes that callers use are that one with the seed 0xEE6B27EB |
| Murmur.SeedChangesHash | common/utility.cpp:39 | One key has equal hashes if and only if the seeds are equal |
| Murmur.TrailingZerosChangeHash | common/utility.cpp:39-73 | Keys that differ only in trailing zero bytes within the leftover part have different hashes, since the length enters the start value |
| Murmur.SwitchFallsThrough | common/utility.cpp:57-73 | The cascade of shifted exclusive-ors is one exclusive-or with the word the leftover bytes denote |
| Murmur.HashString | common/utility.cpp:82-85 | Hashing a string is hashing its bytes with the fixed seed |
| Murmur.HashWord | common/utility.cpp:87-90 | Hashing a word is hashing its eight little-endian bytes with the fixed seed |
| Murmur.AbsorbInverse | common/utility.cpp:47-52 | One pass of the loop is invertible in h for every block |
| Murmur.WordBetweenInverse | common/utility.cpp:47-52 | One pass of the loop is invertible in the block for every h |
| Murmur.FinishInverse | common/utility.cpp:75-77 | The final mixing has a two-sided inverse |
| Murmur.BlockChangeChangesHash | common/utility.cpp:39-79 | Keys of any length that agree except perhaps in one aligned block have equal hashes if and only if the blocks are equal |
| Murmur.TailChangeChangesHash | common/utility.cpp:55-79 | The same for the one to seven leftover bytes |
| Murmur.BlockReachesEveryHash | common/utility.cpp:39-79 | With the rest of the key fixed, every 64-bit value is the hash for some block, given explicitly |
| Murmur.HashWordIsBijective | common/utility.cpp:87-90 | Hashing a word is a bijection on 64-bit words with an explicit two-sided inverse |
| HashCodes.HashCode | common/utility.h:43-50 | The 32-bit loop gives the documented polynomial modulo mod for ASCII strings and faithful mod |
| HashCodes.HashCodeMeetsDocumentation | common/utility.h:41-50 | The loop meets its documentation on every ASCII string if and only if mod is at most 138547329 or divides 2^32 |
| HashCodes.OtherModuliFail | common/utility.h:46-48 | For any other mod one seven-character string shows the difference |
| HashCodes.AnyStringMeetsDocumentation | common/utility.h:41-50 | On strings with chars of either sign the loop meets its documentation if and only if mod divides 2^32 |
| HashCodes.NegativeChar | common/utility.h:46-48 | A single negative char c hashes to (2^32 + c) mod mod |
| Rings.ConsistentMap.Insert | common/consistent_map.h:23-25 | An existing key keeps its node |
| Rings.ConsistentMap.Update | common/consistent_map.h:27 | The key gets the node, no other changes |
| Rings.ConsistentMap.Find | common/consistent_map.h:29-42 | Fails exactly on the empty ring, leaving the out-parameter, and else answers the owner's node |
| Rings.ConsistentMap.Erase | common/consistent_map.h:44 | Removes that key and no other, and counts it |
| Rings.OwnerIsNearest | common/consistent_map.h:34-38 | Searching upwards and wrapping around finds the one key at the least distance (key - hash) mod 2^32 |
| Rings.PredecessorExists | common/consistent_map.h:50-51 | On every ring but the empty one a key has a predecessor, so the arcs below exist |
| Rings.InsertMovesOneArc | common/consistent_map.h:23-42 | A new key takes over exactly the arc from its predecessor (exclusive) to itself (inclusive), all from one owner; no other hash moves |
| Rings.EraseMovesOneArc | common/consistent_map.h:29-44 | Erasing a key hands exactly the hashes it owned, that same arc, to its successor |
| Rings.InsertDisruption | common/consistent_map.h:23-44 | For the nodes that lookups return, on every ring, the empty one included: only that arc goes to the new node, and inserting then erasing restores the ring |
| Rings.EraseDisruption | common/consistent_map.h:29-44 | For the nodes that lookups return after an erasure on every ring of at least two: only the arc the key owned moves, to its successor's node |
| Rings.InsertionOrderIrrelevant | common/consistent_map.h:23-25 | Nodes with distinct keys make the same ring, hence the same lookups, in every order of insertion |

## Left out

- Channels.ChannelDelivers: senders pass named messages within the frame's limits (name at most 254 bytes without NUL, body at most 16382); beyond them the encoder truncates its length fields and writes past its buffer.
- Channels.Drains: a direction is healthy if it is open and failure-free and the receiver accepts its names; after a failure the code itself stops delivering.
- Sessions.Session.OnBodyRead: requires that the payload of an accepted frame with a registered name stays within the buffer; for any other the code parses bytes outside it. Every frame of a peer's encoder satisfies this.
- UserBuffers.StaleBytesIrrelevant: only for frames that keep within their own length; for others the decoder reads leftover bytes or beyond the buffer.
- PipeBuffers.DecodersAgree: only for frames whose name and payload keep within their own length and whose remainder fits a client buffer, as RelayedMessageDecodes shows of every relayed message; for others the relay path copies outside its buffers. Longer direct frames are covered by DirectRoundTrip.
- Logins.UsersConserved: needs disciplined callers (Normal logins with a name, not after the close, one close and one successful login per session), because the code does not enforce them; GuardIsExact gives the exact condition job by job.
- Logins.TableExactBeforeWrap: needs that a session's first 5 s timer tick comes after its OnAccept, which the code leaves to the scheduler; TableRunIsExact gives the exact condition job by job.
- KeepAlive.ClientNeverEvicted: timers fire on time, the two clocks run at the same rate, and messages do not overtake each other.
- KeepAlive.SilentSessionCloses: checks come exactly every 5 s.
- HashCodes.HashCode: strings are shorter than 2^31 characters, where the loop's int index does not overflow, and char is signed.
- Murmur.MurmurHash64: words are read little-endian and keys are shorter than 2^31 bytes, the range of the length parameter.
- The channel carries client frames; the same Session and Pipe templates over PipeBuffer are not modelled as a run.
- Sockets, resolver, threads, locks and the rest of asio: only FIFO queues and asynchronous operations as described above.
- Lifetimes: which sessions are still alive is a parameter of GetSession.
- Protobuf serialisation and reflection, and the handler table's registration: a payload is bytes and the registered names are a set.
- Verification of a checksum: there is none in the code.
- Logging, configuration, command line, daemon, curl and file rotation.
- IoServicePool, LogicIo and MasterIo: a round-robin counter and thin wrappers.
- QueueClient, the client's user objects and the pipe processor: the same patterns as the code modelled.
