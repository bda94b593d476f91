# Verification of the musiTui core

A Dafny model of the parts of musiTui that are hardest to get right, with proofs of what they are
for. `dafny verify dfyconfig.toml` checks everything.

| file | what it models |
|---|---|
| `Powers`, `Bits` | powers of two and bitwise operators on unsigned integers |
| `Algebra`, `Fourier` | commutative rings, powers and geometric series; the discrete Fourier transform as an O(n^2) sum, its recursive form, orthogonality of the roots |
| `Fft` | the in-place transform of `Fft::compute`: reversed counter, swaps, butterfly stages, division |
| `ComplexNumbers` | the ring the program uses, with exact real parts |
| `Residues` | for every power of two n, a ring with a root for a transform of size n |
| `RingBuffer` | the ring buffer as one thread sees it, with 64-bit positions that wrap |
| `Spsc` | the same ring buffer between two threads, every load, element copy and store a step of its own |
| `Pipeline` | decode loop and audio callback on top of `Spsc`, for one track |
| `Engine` | the playback engine object and the device handles it makes, under any outcome of opening files and devices |
| `Songs`, `Playback` | song queue and playback controller, as values and as objects that refine the values |
| `Loader`, `LoaderProgress`, `LoaderCalls` | the background library loader with concurrent `setRootPath` callers: its safety, that it comes to rest, and what is loaded then |
| `Tokens`, `CommandGrammar`, `Json`, `SocketIo`, `Client` | the control protocol: quoting and splitting, JSON strings, lines over partial transfers, and a whole exchange |
| `Utf8` | the UTF-8 check of paths |
| `Beats`, `Bpm`, `BpmDetector` | beat detection on a whole signal, as a stream, and in circular arrays |
| `BeatLaws`, `BeatFormulas` | when there is a beat, why loudness does not matter, and the numbers as closed formulas |

How the program's terms appear:

- Code that updates objects or arrays in place is a method, proved against a function of the old
  state; laws are then proved about that function. `a[..] == Dft(...)`, `Contents()`, `View()` and
  `State()` are such connections.
- Threads are transition systems: a state, the steps that are possible in it, an invariant that every
  step keeps, and theorems about every run. Atomic operations are sequentially consistent. Callers and
  workers take any turn.
- Positions and counters that wrap are natural numbers below 2^64 or 2^32 with the wrap written out;
  unbounded ghost counters stand beside them.
- What the operating system decides (how bytes are cut, whether a device opens, what a decoder
  returns) is a parameter, and the theorems hold for every value of it.
- A byte string is a `string` whose characters are the bytes, except in `Utf8`, where bytes are numbers.

Where the code does less than one might expect, that is stated exactly:

- `RingBuffer.NextPowerOfTwo` is right up to 2^63 and gives 0 beyond, because the sum wraps.
- The UTF-8 check accepts surrogates, against the table in section 4 of RFC 3629: `Utf8.SurrogateIsAccepted` gives
  one, and `Utf8.RfcExactly` says that it departs from the RFC exactly on the accepted strings that hold a byte
  0xED followed by 0xA0 or more.
- Controller and engine can fall out of step, but exactly when a request goes to an empty path
  (`Playback.InSyncExactly`, `Playback.EmptyPathExample`).
- A request arrives exactly when it has no newline and fits in the line limit (`SocketIo.ArrivesExactly`); one that is
  cut short by a broken connection that still closes in order is taken for a whole line (`SocketIo.CutShortIsStillALine`).
- A result that arrives whole is shown exactly when its first line fits in the limit (`Client.ResultIsShown`), and
  printed whole with `--json` exactly when its data has no newline and all of it fits (`Client.RawIsShown`). A large
  enough answer of one line meets neither.
- The player's report that a track has ended counts silent callbacks, so a ring that runs dry brings it about at any
  time (`Pipeline.UnderrunLooksLikeTheEnd`); a silent callback after the end of the stream is right
  (`Pipeline.SilenceAfterTheEnd`).

## Model

| member | source | states |
|---|---|---|
| Fft.Compute | src/decode/Fft.cpp:4-37 | in any commutative ring with a root w whose n/2-th power is -1, for every power of two n, the in-place loops leave a[k] = sum over j of a[j] * w^(jk); with `invert`, the same with the root of the inverse, times the inverse of n, which is demanded only then |
| Fft.ComputeAndInvert | src/decode/Fft.cpp:4-37 | the transform followed by the inverse transform leaves the array as it was |
| Fft.BitReverse | src/decode/Fft.cpp:9-16 | the swapping loop is the rearrangement that takes even-indexed elements first at every level |
| Fft.NextReversed | src/decode/Fft.cpp:11-14 | the carry loop ends with a bit left to set, and j goes from the bit reversal of i-1 to that of i |
| Fft.EvensFirstReverses | src/decode/Fft.cpp:9-16 | element i of the rearrangement is the element at the bit reversal of i |
| Fft.ReversedTwice | src/decode/Fft.cpp:9-16 | bit reversal stays in range and is its own inverse |
| Fft.EvensFirstTwice | src/decode/Fft.cpp:9-16 | the permutation is its own inverse |
| Fft.Butterfly | src/decode/Fft.cpp:25-28 | butterfly j of a block, with the j-th power of the stage root, and nothing else |
| Fft.ButterflyBlock | src/decode/Fft.cpp:23-30 | the inner loop does its butterflies with the powers of the stage root and touches nothing else |
| Fft.AfterAllButterflies | src/decode/Fft.cpp:24-30 | after the inner loop a block is one combining layer of its two halves |
| Fft.Stage | src/decode/Fft.cpp:22-31 | the middle loop combines every block of the stage |
| Fft.StageFinishesBlocks | src/decode/Fft.cpp:19-32 | a stage takes blocks of length h that are complete to blocks of length 2h that are complete |
| Fft.Stages | src/decode/Fft.cpp:19-32 | all stages, with root w^(n/len) in the stage of blocks of length len, are the recursive transform of the rearranged input |
| Fft.DivideAll | src/decode/Fft.cpp:34-36 | every element is multiplied by 1/n |
| Fourier.ButterfliesAreDft | src/decode/Fft.cpp:18-32 | the recursive form over the rearranged input is the O(n^2) transform of the input |
| Fourier.CombineIsDft | src/decode/Fft.cpp:24-30 | one layer over the transforms of the even and odd halves is the transform of the whole |
| Fourier.Orthogonality | src/decode/Fft.cpp:20-36 | powers of the root sum to n at index 0 and to zero elsewhere, from w^(n/2) = -1 alone |
| Fourier.InverseUndoesTransform | src/decode/Fft.cpp:20-36 | the inverse sum of the transform, divided by n, is the input |
| ComplexNumbers.ComplexIsRing | src/decode/Fft.cpp:25-29 | complex numbers with exact parts are such a ring |
| ComplexNumbers.UnitRootsAreValid | src/decode/Fft.cpp:20-21 | a number of length 1 whose n/2-th power is -1, its conjugate and 1/n are what both directions need |
| ComplexNumbers.FourthRoot | src/decode/Fft.cpp:20-21 | an example: i is such a root for n = 4 |
| Residues.RootsOfEverySize | src/decode/Fft.cpp:20-21 | for every power of two n, the residues modulo 2^(n/2) + 1 with w = 2, its inverse and the inverse of n meet all that a transform of size n and its inverse need |
| Residues.OnResidues | src/decode/Fft.cpp:25-29 | sums and products in that ring are those of arithmetic modulo m |
| RingBuffer.NextPowerOfTwo | src/util/RingBuffer.h:143-153 | the least power of two that is at least n for 1 <= n <= 2^63; 1 for 0; 0 beyond, where the sum wraps |
| RingBuffer.FillBelowTopBit | src/util/RingBuffer.h:145-151 | the six shifts fill every bit below the top one |
| Bits.SmearStep | src/util/RingBuffer.h:146-151 | one shift-and-or doubles the run of ones at the top |
| Bits.LeastPow2 | src/util/RingBuffer.h:143-153 | the power of two above the bit length of m is the least one above m |
| Bits.MaskIsRemainder | src/util/RingBuffer.h:50 | masking with 2^k - 1 is the remainder modulo 2^k |
| Slots.WrappedSlot | src/util/RingBuffer.h:50 | the masked 64-bit position is the slot of the unbounded position, also after it wrapped |
| Slots.WrappedDistance | src/util/RingBuffer.h:43 | the difference of wrapped positions is the difference of the unbounded ones |
| Slots.WrappedAdvance | src/util/RingBuffer.h:60 | advancing a wrapped position follows the unbounded one |
| RingBuffer.RingBuffer.constructor | src/util/RingBuffer.h:19-26 | empty, with the requested capacity rounded up; beyond 2^63, without any slot |
| RingBuffer.RingBuffer.Write | src/util/RingBuffer.h:39-63 | appends the longest prefix of the data that fits, and returns its length |
| RingBuffer.RingBuffer.Read | src/util/RingBuffer.h:70-95 | takes the oldest elements, up to the count asked for, and leaves the rest in order |
| RingBuffer.RingBuffer.CopyIn | src/util/RingBuffer.h:50-58 | the two runs of a write land in the slots that follow the contents, and no unread element is overwritten |
| RingBuffer.RingBuffer.CopyOut | src/util/RingBuffer.h:81-89 | the two runs of a read are the oldest elements in order |
| RingBuffer.RingBuffer.AvailableToRead | src/util/RingBuffer.h:100-104 | the number of elements in the buffer |
| RingBuffer.RingBuffer.AvailableToWrite | src/util/RingBuffer.h:109-113 | capacity less the number of elements in the buffer |
| RingBuffer.RingBuffer.Clear | src/util/RingBuffer.h:133-136 | empties the buffer |
| Spsc.StepKeepsInv | src/util/RingBuffer.h:39-95 | every atomic step of either thread stays within the buffer and keeps the invariant |
| Spsc.ReadsArePrefixOfWrites | src/util/RingBuffer.h:39-95 | under every interleaving, what was read is a prefix of what was written, at most a capacity behind, and a read in progress holds the next elements |
| Spsc.NoSlotIsShared | src/util/RingBuffer.h:54-58 | under every interleaving, the slots being filled and those being read are disjoint |
| Spsc.WriteTakesWhatFits | src/util/RingBuffer.h:40-48 | a write settles for as much of its data as fits when it loads the read position |
| Spsc.ReadTakesWhatIsThere | src/util/RingBuffer.h:71-79 | a read settles for as many elements as are there when it loads the write position |
| Pipeline.EventKeepsInv | src/player/DecodeThread.cpp:65-86 | every step of decode loop and callback keeps the invariant of the track |
| Pipeline.WriteIsComplete | src/player/DecodeThread.cpp:67-84 | the unchecked write is never short: the space found before decoding is still there |
| Pipeline.NothingIsLost | src/player/PlaybackEngine.cpp:237-254 | under every interleaving, samples delivered, then those in the ring, then those being written are exactly the samples decoded, and whole frames are delivered |
| Pipeline.DecodedIsWhatCame | src/player/DecodeThread.cpp:75-84 | the samples decoded are what the decoder returned, all and in order, and the stream has ended exactly when it returned nothing |
| Pipeline.CallbackDelivers | src/player/PlaybackEngine.cpp:238-252 | whatever the decode loop does meanwhile, a callback delivers the frames it was asked for, or all that is in the ring when it looks if that is less: the next samples in the order decoded; what was there when it was called is there then |
| Pipeline.CallbackNeverWaits | src/player/PlaybackEngine.cpp:238-252 | a callback never waits for the decode loop: by itself it is over after one look at the ring, a step for every sample delivered and one to give the slots back |
| Pipeline.DrainedTrackIsComplete | src/player/DecodeThread.cpp:78-81 | at the end of the stream, the device has had every sample in order exactly when the ring is drained |
| Pipeline.SilentExactlyWhenEmpty | src/player/PlaybackEngine.cpp:239-244 | a callback counts as silent exactly when it asks for nothing or finds the ring empty |
| Pipeline.SoundEndsSilence | src/player/PlaybackEngine.cpp:245-246 | a callback that found samples resets the count |
| Pipeline.SilenceAfterTheEnd | src/player/PlaybackEngine.cpp:177-179 | after the end of the stream, a callback that asks for samples is silent exactly when the whole track has been played |
| Pipeline.UnderrunLooksLikeTheEnd | src/player/PlaybackEngine.cpp:177-179 | whenever the ring has run dry, five callbacks make the player report the end, at the end of the stream or not |
| Pipeline.BlockedExactlyWhenFull | src/player/DecodeThread.cpp:67-73 | the loop turns back for space exactly when the fill exceeds the capacity less a chunk |
| Pipeline.PrefillProgress | src/player/PlaybackEngine.cpp:217-222 | while the wait goes on, every step of the decode loop brings its end nearer |
| Pipeline.PrefillEnds | src/player/PlaybackEngine.cpp:217-222 | the wait before playback ends within a bounded number of steps of the decode loop, whatever the decoder returns |
| Pipeline.DecodeLoopCanStep | src/player/DecodeThread.cpp:65-86 | until it has finished, the decode loop always has a step to take |
| Pipeline.ConfiguredPrefillEnds | src/player/PlaybackEngine.cpp:214-222 | with the configured sizes a quarter of the free space is a target that the wait reaches |
| Engine.PlaybackEngine.Load | src/player/PlaybackEngine.cpp:35-83 | succeeds exactly when the file opens and a device can be re-pointed or opened; a working device is kept; on failure nothing is loaded |
| Engine.PlaybackEngine.PrepareSink | src/player/PlaybackEngine.cpp:85-99 | keeps the open device if it takes the format, else opens a new one, else leaves none |
| Engine.PlaybackEngine.OpenSink | src/player/PlaybackEngine.cpp:101-119 | the chosen device, else the default, which then is the chosen one |
| Engine.PlaybackEngine.StartPlayback | src/player/PlaybackEngine.cpp:204-226 | fails only without a decoder and then changes nothing; else the decode thread is started and the device runs |
| Engine.PlaybackEngine.Play | src/player/PlaybackEngine.cpp:121-143 | plays exactly when there is a decoder and a device |
| Engine.PlaybackEngine.Pause | src/player/PlaybackEngine.cpp:145-155 | only a playing engine becomes paused, and its device stops pulling |
| Engine.PlaybackEngine.StopPlayback | src/player/PlaybackEngine.cpp:324-351 | stopped without decoder and with an empty ring; device, format and volume stay |
| Engine.PlaybackEngine.ClearRing | src/player/PlaybackEngine.cpp:65 | the ring is cleared only with no decode thread left to join and no device started |
| Engine.PlaybackEngine.SetVolume | src/player/PlaybackEngine.cpp:228-231 | the clamped volume, on engine and device alike |
| Engine.PlaybackEngine.SwapSink | src/player/PlaybackEngine.cpp:288-313 | the new device takes over in the old one's state, or nothing changes |
| Engine.PlaybackEngine.SetOutputDevice | src/player/PlaybackEngine.cpp:260-314 | succeeds exactly when the device is the chosen one already or opens; then it is the chosen one, and otherwise engine and running device are as before |
| Engine.RunCommands | src/player/PlaybackEngine.cpp:35-351 | over every run of calls with any failures: not stopped only with decoder, ring, a decode thread started and not joined, and open device; the device runs exactly when playing; no other device is open; its format, volume and name are the engine's |
| Engine.AudioHost.Start | src/audio/SdlAudioSink.cpp:145-148 | a device may start only while no other runs: the ring has one consumer |
| Engine.AudioHost.Open | src/audio/SdlAudioSink.cpp:24-86 | opens paused with the given format, or leaves the handle closed |
| Engine.AudioHost.SetSourceFormat | src/audio/SdlAudioSink.cpp:88-106 | an open device takes a supported format, and keeps it even when its converter refuses |
| Engine.PlaybackEngine.TakeSource | src/player/PlaybackEngine.cpp:51-67 | the new file with its format and length, an empty ring and a thread to start |
| Engine.PlaybackEngine.LoadOpened | src/player/PlaybackEngine.cpp:51-82 | the rest of a load: the file is ready with an empty ring and a device at its format, or nothing is loaded |
| Engine.PlaybackEngine.FitSink | src/player/PlaybackEngine.cpp:69-80 | the device in use has the engine's format and volume, or there is none |
| Engine.PlaybackEngine.Probe | src/player/PlaybackEngine.cpp:267-282 | a probed device is usable exactly when it can be opened for the format in use, or for stereo, and is not kept |
| SongQueues.SongQueue.GetCurrentSongPath | src/player/SongQueue.cpp:41-47 | the entry at the position, or nothing |
| SongQueues.SongQueue.LoadPlaylist | src/player/SongQueue.cpp:20-39 | the playlist with the position at its first song, or none |
| SongQueues.SongQueue.Next | src/player/SongQueue.cpp:49-63 | moves on and returns the song, or stays at the last one and returns nothing |
| SongQueues.SongQueue.Previous | src/player/SongQueue.cpp:65-74 | moves back and returns the song, or stays and returns nothing |
| SongQueues.SongQueue.SkipTo | src/player/SongQueue.cpp:76-85 | moves to an index that exists, or stays |
| SongQueues.SongQueue.Clear | src/player/SongQueue.cpp:101-113 | no playlist and no position |
| Songs.OperationsStayInRange | src/player/SongQueue.cpp:20-113 | the index is -1 for an empty playlist and otherwise in range |
| Songs.PreviousUndoesNext | src/player/SongQueue.cpp:49-74 | a step forward that finds a song is undone by a step back, and the reverse |
| Controller.PlaybackController.LoadAlbum | src/player/PlaybackController.cpp:16-32 | stops, and puts the album in the queue |
| Controller.PlaybackController.Play | src/player/PlaybackController.cpp:34-53 | resumes when paused, else loads and plays the current song |
| Controller.PlaybackController.Pause | src/player/PlaybackController.cpp:55-58 | pauses a playing engine and leaves the queue |
| Controller.PlaybackController.Stop | src/player/PlaybackController.cpp:60-66 | stopped with an empty queue |
| Controller.PlaybackController.Next | src/player/PlaybackController.cpp:68-80 | plays the next song, or ends the album |
| Controller.PlaybackController.Previous | src/player/PlaybackController.cpp:82-91 | plays the previous song, or changes nothing |
| Controller.PlaybackController.LoadAndPlaySong | src/player/PlaybackController.cpp:151-168 | plays the file exactly when the engine can load it, else is stopped |
| Controller.PlaybackController.PlaySongAtIndex | src/player/PlaybackController.cpp:170-183 | plays the song at an index that exists, else changes nothing |
| Controller.PlaybackController.HandleAutoAdvance | src/player/PlaybackController.cpp:185-199 | a stale auto-advance does what a request for the next song does |
| Playback.InSyncExactly | src/player/PlaybackController.cpp:34-199 | a request keeps "the engine's file is the entry at the queue's index" exactly when it does not go to an empty path |
| Playback.EmptyPathExample | src/player/PlaybackController.cpp:82-87 | an empty path before the current song breaks it |
| Playback.NextGoesOn | src/player/PlaybackController.cpp:68-80 | next goes to the following entry, playing it if it can be loaded and stopped there if not; without one it ends the album; an auto-advance does the same |
| Playback.PreviousGoesBack | src/player/PlaybackController.cpp:82-91 | previous goes to the entry before, and at the first changes nothing |
| Playback.IndexIsPlayed | src/player/PlaybackController.cpp:170-183 | an index goes to that entry, and one out of range changes nothing |
| Playback.PlayStarts | src/player/PlaybackController.cpp:34-53 | play resumes without loading when paused, and else loads the current entry |
| Playback.PauseThenPlay | src/player/PlaybackController.cpp:34-58 | pause changes the state alone, and play after it gives back the same player even when no file can be loaded |
| Playback.StopEndsAndAlbumWaits | src/player/PlaybackController.cpp:16-66 | stop leaves an empty queue; a loaded album waits, stopped, at its first song |
| Playback.PreviousAfterNext | src/player/PlaybackController.cpp:68-91 | previous after next is back on the song |
| Playback.ThereAndBack | src/player/PlaybackController.cpp:68-91 | as many songs back as forth leads to the same player |
| Playback.AlwaysInSync | src/player/PlaybackController.cpp:16-199 | over every run on albums without empty paths, stale auto-advances and failing loads included, it holds and the index is in range |
| Playback.AlbumPlaysThrough | src/player/PlaybackController.cpp:185-199 | an album started at any song plays to its end, one song an auto-advance, and then ends |
| Loader.StepKeepsInv | src/service/LibraryService.cpp:63-125 | every step of every caller and worker keeps the invariant of the protocol |
| Loader.StoresAreCurrent | src/service/LibraryService.cpp:105-112 | in every run, a worker about to store works for the library it changes, at an index nobody else holds and nobody stored before, with the album of that index |
| Loader.ClaimsAreDistinct | src/service/LibraryService.cpp:105 | in every run, the indices claimed for a library are 0, 1, 2, ... without repetition |
| Loader.PathsStayWhileLoading | src/library/MusicLibrary.cpp:22-27 | in every run, only a swap changes the number of albums or their paths, and it happens only when every worker is gone |
| Loader.FinishedMeansAllLoaded | src/service/LibraryService.cpp:82-117 | in every run, while nobody restarts the loader and once its workers have exited, every album is loaded from its own path |
| Loader.RestartsLeaveWorkers | src/service/LibraryService.cpp:94-116 | in every run, while nobody restarts the loader, a library with albums is not cancelled and has two to four workers, or one for its only album |
| Loader.VersionCountsChanges | src/service/LibraryService.cpp:76-113 | in every run, a quiet system's version has counted each swap and each store, modulo 2^32 |
| Loader.WorkersNeverStuck | src/service/LibraryService.cpp:103-116 | in every run, a worker that has not exited can step, so it never reaches outside the shared paths |
| LoaderProgress.OnlyQuietStops | src/service/LibraryService.cpp:63-125 | in every run, nothing but a new call is possible exactly when every caller has returned and every worker has exited |
| LoaderProgress.ComesToRest | src/service/LibraryService.cpp:63-125 | after every run, no schedule without new calls goes on for ever, fair or not |
| LoaderProgress.EveryScheduleEnds | src/service/LibraryService.cpp:63-125 | the same from every state in which the invariant holds |
| LoaderProgress.JoiningEnds | src/service/LibraryService.cpp:119-125 | once workers are cancelled and being joined, the joining ends within the steps left to them |
| LoaderProgress.JoinWorkBound | src/service/LibraryService.cpp:119-125 | those are at most five for each worker, and one |
| Loader.WorkerCount | src/service/LibraryService.cpp:97-99 | the largest number within the albums, within four, and within the hardware threads unless it is two or less |
| LoaderCalls.EveryCallSwapsOnce | src/service/LibraryService.cpp:63-80 | in every run, each call has swapped its library in at most once, and once when it has returned; the library there is that of a call that has swapped |
| LoaderCalls.AtRestAllIsLoaded | src/service/LibraryService.cpp:63-125 | in every run, once only a new call is possible, the library of one of the calls is there with every album loaded, and all have been swapped in |
| LoaderCalls.OneCallIsLoaded | src/service/LibraryService.cpp:63-125 | after a single call, its library, loaded, whatever the order of steps |
| LoaderCalls.EveryAlbumGetsLoaded | src/service/LibraryService.cpp:63-125 | after any run, whoever chooses the further steps arrives where the library of one of the calls is loaded |
| Tokens.Tokenize | src/commands/CommandDispatcher.cpp:120-150 | the loop computes the words that the grammar below gives the text |
| CommandGrammar.LineSplits | src/commands/CommandDispatcher.cpp:120-150 | a line of words, made of plain and quoted parts and perhaps an open quote at the end, with any white space around and between them, splits into exactly the values of its words |
| CommandGrammar.EveryTextIsALine | src/commands/CommandDispatcher.cpp:120-150 | every text is such a line |
| CommandGrammar.AnySpacingSplits | src/commands/CommandDispatcher.cpp:120-164 | quoted words with any non-empty white space between them, and any before and after, split into exactly those words |
| CommandGrammar.WhiteSpaceHasNoWords | src/commands/CommandDispatcher.cpp:139-148 | white space alone has no words |
| CommandGrammar.QuotesInsideAWord | src/commands/CommandDispatcher.cpp:128-145 | quotes inside a word do not end it |
| CommandGrammar.QuotedExactly | src/commands/CommandDispatcher.cpp:152-156 | quoting leaves a word as it is exactly when it is not empty and has no white space, quote or backslash |
| CommandGrammar.AnyLineSplits | src/commands/CommandDispatcher.cpp:166-170 | a command line with any white space around it and after its command word splits into the word and the rest; only a space or a tab ends the word |
| CommandGrammar.WhiteSpaceIs | src/commands/CommandDispatcher.cpp:30-34 | white space is that of the "C" locale |
| Tokens.QuoteArg | src/commands/CommandDispatcher.cpp:152-164 | a word as it must be typed |
| Tokens.TokensOfJoined | src/commands/CommandDispatcher.cpp:120-164 | words quoted and joined by spaces split into exactly those words, whatever they are |
| Tokens.Trim | src/commands/CommandDispatcher.cpp:30-34 | the loops compute the trimmed text |
| Tokens.TrimmedIsTrimmed | src/commands/CommandDispatcher.cpp:30-34 | what is left has no white space at its ends, and what went was white space |
| Tokens.TrimmedPadded | src/commands/CommandDispatcher.cpp:30-34 | white space around a trimmed text, and nothing more, goes |
| Tokens.JoinedLineSplits | src/commands/CommandDispatcher.cpp:166-170 | a joined line splits into its command word and a rest that reads as exactly the other words |
| Tokens.SingleArgOfQuoted | src/commands/CommandDispatcher.cpp:53-60 | a single argument that was quoted is read back unchanged |
| Tokens.SingleArgVerbatim | src/commands/CommandDispatcher.cpp:53-60 | without a leading quote the trimmed text is the argument |
| Json.AppendString | src/util/Json.h:12-32 | appends the quoted and escaped string |
| Json.EscapedIsJson | src/util/Json.h:14-29 | the escaped text is a sequence of characters as section 7 of RFC 8259 defines them |
| Json.EscapedMeans | src/util/Json.h:14-29 | by that section, the escaped text stands for exactly the characters of the string |
| Json.FindString | src/util/Json.h:43-72 | reads the string after the first occurrence of the key |
| Json.ReadsEscaped | src/util/Json.h:49-71 | reading an escaped string gives the string and stops at its closing quote |
| Json.HexOfControl | src/util/Json.h:62-66 | the four digits written for a control character read as that character |
| Json.MessageIsRead | src/util/Json.h:43-72 | whatever the message is and whatever follows it, looking up "message" in a response gives it back |
| Json.OkIsVisible | src/ipc/ControlClient.cpp:79 | the client's test for success is the result's ok |
| Json.NewlineOnlyFromData | src/commands/CommandDispatcher.cpp:105-114 | a response has a raw newline exactly when its data field has one |
| SocketIo.ReadLine | src/ipc/SocketIo.cpp:53-70 | however the stream is cut, and however often it is interrupted, the answer depends only on the bytes: the first line, too long exactly beyond the limit, or an error; the buffer never holds more than the limit and one chunk |
| SocketIo.ArrivesExactly | src/ipc/SocketIo.cpp:53-70 | a request followed by a newline is read as itself if and only if it has no newline and is within the limit |
| SocketIo.CutShortIsStillALine | src/ipc/SocketIo.cpp:62 | a prefix of a request at the end of the stream is taken for a line, at a failure it is not |
| SocketIo.SendAll | src/ipc/SocketIo.cpp:36-51 | with partial sends and interruptions, a prefix of the data is on the wire, and all of it exactly when the answer is yes |
| SocketIo.Incoming.Recv | src/ipc/SocketIo.cpp:57-62 | one receive takes a non-empty piece no longer than the buffer off the stream |
| SocketIo.Outgoing.Send | src/ipc/SocketIo.cpp:43-48 | one send puts some prefix on the wire, or is interrupted, or fails |
| Client.JoinRequest | src/ipc/ControlClient.cpp:53-62 | the arguments other than --json, quoted and joined, and whether --json was among them |
| Client.WordsAround | src/ipc/ControlClient.cpp:55-59 | every --json goes, wherever it stands, and nothing else does |
| Client.NewlineInJoined | src/ipc/ControlClient.cpp:60-61 | the request has a raw newline exactly when a word has one |
| Client.RunClient | src/ipc/ControlClient.cpp:52-87 | what is sent and what is reported, as a function of the arguments, the bytes received and what the socket takes |
| Client.Serve | src/ipc/ControlServer.cpp:138-161 | what is answered, as a function of the bytes received, however they are cut |
| Client.SendRequest | src/ipc/ControlClient.cpp:53-62 | the request with its newline is on the wire, or the prefix of it that the socket took |
| Client.ReadAnswer | src/ipc/ControlClient.cpp:79-86 | what is reported, as a function of the bytes received, however they are cut |
| Client.Exchange | src/ipc/ControlClient.cpp:37-50 | both ends over two sockets with any partial sends, cuts and interruptions: which line is handled and what the user sees |
| Client.PartOfResultIsShown | src/ipc/ControlClient.cpp:79-86 | what the user sees of a response that arrives in part, from the end of its message on |
| Client.ErrorResponseIsJson | src/ipc/ControlServer.cpp:33-35 | an error response is the JSON of a failed result |
| Client.StrangersAndBrokenLines | src/ipc/ControlServer.cpp:140-145 | a peer of another user, or one whose line breaks off, is not handled and is sent nothing, and everybody else is answered |
| Client.ExceptionIsReported | src/ipc/ControlServer.cpp:154-159 | what goes wrong in the handler is shown like a failed result |
| Client.NoMessageShowsLine | src/ipc/ControlClient.cpp:83 | a response without a message is shown as it is |
| Client.WordsArrive | src/ipc/ControlClient.cpp:53-62 | the server reads exactly the words the client was given |
| Client.OneArgumentArrives | src/commands/CommandDispatcher.cpp:410-411 | the argument of a one-argument command, such as a root path, arrives unchanged |
| Client.ResultIsShown | src/ipc/ControlClient.cpp:79-86 | ok and message of any result are reported as they are if the first line of the response fits, and not at all otherwise |
| Client.RawIsShown | src/ipc/ControlClient.cpp:80-81 | with --json the whole response is printed if and only if its data is one line and the response is within the line limit |
| Client.Conversation | src/ipc/ControlClient.cpp:52-87 | over sockets that may stop early: once the whole request got through, the handler gets exactly the words, and once the message of the answer did, the user sees it and its ok if a whole line came and fits, and nothing otherwise |
| Client.TooLongIsReported | src/ipc/ControlServer.cpp:146-148 | a request beyond the limit is handled exactly when so little of it arrived that it fits, on a connection that closed in order; if all of it was sent and all of the answer came back, the user is told |
| Utf8.IsValidUtf8 | src/util/PathValidator.cpp:193-234 | accepts exactly the concatenations of shortest-form encodings of code points up to 0x10FFFF |
| Utf8.Masks | src/util/PathValidator.cpp:201-221 | what each masked comparison says about a byte |
| Utf8.HeadIsEncoded | src/util/PathValidator.cpp:198-227 | a sequence that passes the tests is the encoding of its value |
| Utf8.EncodedIsHead | src/util/PathValidator.cpp:198-227 | every encoding passes the tests, whatever follows it |
| Utf8.DecodingIsUnique | src/util/PathValidator.cpp:193-234 | an accepted string decodes in one way only, to code points that encode to it |
| Utf8.RfcExactly | src/util/PathValidator.cpp:208-215 | UTF-8 as RFC 3629 defines it is what is accepted and holds no surrogate's bytes |
| Utf8.SurrogateIsAccepted | src/util/PathValidator.cpp:208-215 | a surrogate is accepted |
| BpmDetectors.BpmDetector.Feed | src/decode/BpmDetector.cpp:38-108 | one call takes the state to that of the pure stream function; the circular arrays hold the newest 43 energies and 8 gaps |
| BpmDetectors.BpmDetector.SameStateSameFields | src/decode/BpmDetector.h:29-55 | detectors in the same state agree in every field, every array slot and both positions |
| BpmDetectors.BpmDetector.EndWindow | src/decode/BpmDetector.cpp:72-106 | the energy enters the history after the average was taken; a beat is recorded exactly when `Beats.BeatsAfter` has one, which `BeatLaws.BeatExactly` spells out |
| BpmDetectors.BpmDetector.RecordGap | src/decode/BpmDetector.cpp:86-102 | the oldest gap makes room for the new one, and the load follows |
| BpmDetectors.BpmDetector.Estimate | src/decode/BpmDetector.cpp:91-102 | the sum over the slots in use gives the mean of the newest gaps, so the next load |
| BpmDetectors.BpmDetector.Advance | src/decode/BpmDetector.cpp:58-62 | one frame through the filter and the decimation counter |
| BpmDetectors.BpmDetector.Sample | src/decode/BpmDetector.cpp:64-74 | one value into the energy window, which it may complete |
| BpmDetectors.BpmDetector.RecordBeat | src/decode/BpmDetector.cpp:85-105 | the beat is added; the first beat adds no gap |
| BpmDetectors.BpmDetector.MixDown | src/decode/BpmDetector.cpp:52-56 | the mean over the channels |
| BpmDetectors.BpmDetector.Configure | src/decode/BpmDetector.cpp:41-47 | a new rate sets filter and step anew, the same rate changes nothing |
| BpmDetectors.BpmDetector.Reset | src/decode/BpmDetector.cpp:15-32 | the state of a new detector |
| Circular.Write | src/decode/BpmDetector.cpp:80-81 | writing at the position and moving on forgets the oldest value and adds the new one |
| Circular.SumOfUsed | src/decode/BpmDetector.cpp:92-94 | the slots in use sum to the newest values wherever the oldest is |
| Bpm.SplitFeed | src/decode/BpmDetector.cpp:38-107 | two calls cut at a frame boundary leave the state of one call |
| Bpm.CuttingDoesNotMatter | src/decode/BpmDetector.cpp:38-107 | so do any number of calls, empty ones included |
| Bpm.RunIsBatch | src/decode/BpmDetector.cpp:51-107 | from a reset detector the stream state is what filtering, decimating, measuring and detecting on the whole signal gives |
| Bpm.TrackIsAnalysedWhole | src/decode/BpmDetector.cpp:38-107 | a track fed in any number of calls is analysed as the whole signal |
| Bpm.AlwaysPlausible | src/decode/BpmDetector.cpp:83-101 | in every run gaps are at least 0.3 s, so the mean is never zero, the tempo is at most 200 and the load factor stays between 0.2 and 1 |
| BeatLaws.BeatExactly | src/decode/BpmDetector.cpp:76-84 | there is a beat at the end of a window exactly when its energy exceeds one and a half times the average of the 43 before it, and more than 125 samples have passed since the start and every earlier beat |
| BeatLaws.BeatsLouder | src/decode/BpmDetector.cpp:76-84 | energies multiplied by a positive number have the same beats |
| BeatLaws.LoudnessDoesNotMatter | src/decode/BpmDetector.cpp:51-107 | a track played louder, softer or with its polarity reversed has the same beats and load |
| BeatLaws.SilenceHasNoBeats | src/decode/BpmDetector.cpp:83-84 | a silent track has no beats and leaves the load at one half |
| BeatFormulas.MonoIsMean | src/decode/BpmDetector.cpp:52-56 | a frame is mixed down to the mean of its samples |
| BeatFormulas.FilteredIs | src/decode/BpmDetector.cpp:58 | the filter's output is alpha times the sum of all input so far, with weights that fall off by 1 - alpha a step |
| BeatFormulas.EnergyIs | src/decode/BpmDetector.cpp:67-72 | the energy of a window is the mean square of its 25 values |
| BeatFormulas.MeanGapIs | src/decode/BpmDetector.cpp:92-94 | the mean gap is the time since the beat eight back, or the first, over the number of gaps |
| BeatFormulas.LoadMoves | src/decode/BpmDetector.cpp:95-101 | from the third beat on, each moves the load by 15 percent towards the tempo on the scale from 60 to 180, kept between 0.2 and 1 |
| BeatFormulas.LoadIs | src/decode/BpmDetector.cpp:85-105 | each beat in turn moves the load, from one half |
| BeatFormulas.SetupIs | src/decode/BpmDetector.cpp:41-46 | the filter constant and the step of a rate |
| BeatFormulas.NewRateStartsAStep | src/decode/BpmDetector.cpp:41-62 | after a change of rate, only the filter moves until a whole step has passed |
| BeatFormulas.OddCallsChangeNothing | src/decode/BpmDetector.cpp:39-49 | a call without samples, channels or rate changes nothing, nor does less than a frame at the same rate |
| Beats.DecimatedAt | src/decode/BpmDetector.cpp:60-62 | decimation keeps every step-th value |
| Beats.GapsAreLong | src/decode/BpmDetector.cpp:83-86 | beats sit at the ends of energy windows, so gaps are at least 150 samples |
| Beats.MeanGap | src/decode/BpmDetector.cpp:92-94 | the mean of the newest gaps is at least 0.3 s |
| Beats.Tempo | src/decode/BpmDetector.cpp:95 | positive and at most 200 |
| Beats.NextLoad | src/decode/BpmDetector.cpp:97-101 | smoothing keeps the load factor between 0.2 and 1 |

## Left out

- Rounding: floating point is exact here. `Fft` works in any commutative ring, of which the complex numbers with exact parts are one; `Beats` and `Bpm` work over `real`. The constant 3.14159265 is as in the code. That cos and sin give the roots is not part of this model.
- Fft.Compute: does not model sizes from 2^30 on, where the 32-bit `len <<= 1` would overflow, or sizes that are not a power of two, which no caller uses. It computes w^(n/len) by powers where the code calls cos and sin anew for each stage.
- Memory ordering weaker than sequential consistency, in `Spsc`, `Pipeline` and `Loader`.
- `DecodeThread::decodeLoop`, the audio callback and the loader's workers are steps of transition systems, not loops in a method, because what matters about them is how their steps interleave; `RingBuffer` has the sequential methods.
- `Pipeline` covers one track from the start of its decode thread on; that the thread is joined and the device paused before the ring is cleared is proved in `Engine`. The wait for the prefill is not a constraint on when callbacks happen, so its theorems hold for more runs than the player has.
- Pipeline.ConfiguredPrefillEnds: the target is available / 4 rounded down; the code's float product is exact for the configured sizes, which are below 2^24.
- Engine.PlaybackEngine.Load: notification texts, the sample counter and the beat detector's reset are left out, as are the audio library's conversions behind a device handle and exceptions for lack of memory.
- Engine.PlaybackEngine.StartPlayback: the wait for the prefill is one step there; that it ends is proved in `Pipeline`.
- How many auto-advances are enqueued for one finished song is not claimed: the monitor may enqueue several before the first is handled (src/player/AutoAdvanceManager.cpp:45-52). `Playback` allows any number at any time.
- SongQueues.SongQueue.LoadPlaylist: does not model the pre-warm thread, which only opens files ahead of time.
- Loader.StoresAreCurrent: indices and counters claimed by workers are unbounded; the code's `int` index would need 2^31 claims in one load to overflow.
- Scanning the file system, album and song metadata, playlists, settings, notifications and event subscribers.
- `Engine.AudioHost` stands for the device handles of the audio library: what each call does to a handle is taken from src/audio/SdlAudioSink.cpp, and only opening and re-pointing have rows above.
- Client.Exchange: the server reads what got through even when the client gave up sending; how that connection then ends is a parameter.
- Client.Serve: the peer check is a parameter; binding, permissions, accept and poll loops, time limits and signal handling are not part of this model.
- Client.RunClient: usage and error texts are left out; the socket is connected when it starts.
- Json.FindString: std::string_view::find is the function `FirstOccurrence`, and std::stoi the function `StoiHex`, on the four characters it is given.
- What the individual commands do: `Client.Conversation` takes the handler as a parameter.
- The rest of path checking (length, null bytes, traversal, normal forms), which is easy by comparison.
- The spectrum analyser, the terminal interface, palettes and visualisers.
