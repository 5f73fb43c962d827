# Verified models for ectool

This project models the parts of `ectool` whose correctness depends on more than one function
body at a time, and proves what they promise.

* **Option parser** (`getopt/optparser.cpp`). The parser rewrites its argument vector while it
  reads it. `OptionGrammar.dfy` reads a command line from left to right and moves nothing;
  `OptParser.dfy` is the parser as a class that moves slots down through its save buffer, and it
  gives the results of that reading for every vector and every option table. `OptionWords.dfy` says
  what a user can write and what it means, without a parser: every line so written is read back as
  it was meant, and every line is written so. `OptionProofs.dfy` shows that a run is a stable
  partition of the vector, and when a second run repeats the first.
* **CRC-32** (`src/crc.cc`). The table loop is held to a bit-serial register, the register to
  division of polynomials over GF(2), and the division to the errors that the checksum detects. The
  checksum as such is the complement of a remainder, and has the usual check value of this CRC.
  `Crc32Table.dfy`, `Crc32Register.dfy`, `Gf2Polynomial.dfy`, `Crc32Division.dfy`, `Crc32.dfy`.
* **Host command protocol V4** (the numbered steps in `include/ec_commands.h`). A host, an EC and
  two links that lose and damage packets are one state machine; what every step keeps is proved
  first, then the guarantees for every run. `HostV4.dfy`, `HostV4Safety.dfy`, `HostV4Theorems.dfy`,
  `HostV4Freshness.dfy`, `HostV4Heard.dfy`, `HostV4Delivery.dfy`.
* **Host command protocol V3** (`src/comm-lpc.cc`, `src/comm-i2c.cc`, `src/comm-usb.cc`,
  `src/comm-servo-spi.cc`). Four ways to build a request come to one packet, three ways to check a
  response are compared, and the LPC wait loop has its bounds. `HostV3Packet.dfy`,
  `HostV3Requests.dfy`, `HostV3Responses.dfy`, `HostV3Lpc.dfy`, `LpcWait.dfy`.

`dafny verify dfyconfig.toml` checks everything. Solver time is kept low by hiding the bodies of
functions a proof does not need.

## What turned out not to hold

* *A second run of the option parser repeats the first.* It does exactly when no option lacked its
  argument, or when there is no positional that it could take the second time
  (`OptionProofs.RunAgainIff`). For the arguments `x -o`, where `-o` wants an argument, it does not
  (`OptionProofs.RunAgainDiffers`).
* *A V4 host that stops with success has the response to its own request.* Not always, because the
  sequence number has two bits. For a request with two or more tries it holds, whatever happens to
  it, exactly if nothing that is left over when it is begun carries the number it will get: not the
  EC's response buffer, no packet and no response on the links. For a single try it holds exactly
  if no packet with `seq_dup` clear and that number, and no response to one, is left on the links
  (`HostV4Freshness.FreshFromStartIff`). A host can see to it by itself: after an accepted response
  of its own, the next three requests are safe (`HostV4Heard.FreshAfterAccepted`), so a host that
  never lets three requests in a row pass without one is safe all the time
  (`HostV4Heard.FreshAllTheTime`), and the fourth need not be (`HostV4Heard.FourthCanBeStale`).
  `HostV4Theorems.LateResponseAccepted` and `HostV4Theorems.UnprocessedResponseAccepted` are runs
  in which it fails.
* *An error at step 208 of the V4 host means that the EC did not process the request.* It does not:
  `HostV4Freshness.GivenUpThoughProcessed` is a run in which it did. On the contrary, for a request
  with two or more tries, stopping there on a response always means that it was processed, exactly
  if it was begun when no first packet with its number, and no response to one, was left on the
  links (`HostV4Freshness.GivenUpProcessedIff`). With a single try the host never stops there on a
  response (`HostV4Freshness.SingleTryNever208`).
* *A V3 call over I2C returns no more than the caller asked for.* It does not exactly in the case of
  `HostV3Responses.I2cReturnsTooMuchIff`; `HostV3Responses.I2cReturnsTooMuch` is one.
* *A V3 response with one wrong byte is refused over LPC.* This holds outside the length field.
  For a wrong length byte `HostV3Responses.LpcBadLengthIff` says exactly when it is refused, and
  `HostV3Responses.LpcTakesBadLength` is a response that is not.

## Model

| member | source | states |
|---|---|---|
| OptParser.Run | getopt/optparser.cpp:6-111 | A run up to the first -1, which it reaches: whatever is rewritten in between, the option codes and arguments are those of the left-to-right reading of the given vector; the vector ends as program name, taken slots, positionals and the tail behind "--", each in their order; the index stands after the taken slots |
| OptParser.RunWritten | getopt/optparser.cpp:6-111 | A run over a line that the user has written reports exactly what was written, and leaves the option slots, the operands and the tail in this order, with the index behind the options |
| OptParser.RunTwice | getopt/optparser.cpp:64-108 | A second run on the vector left by the first gives the same results and index and moves nothing, if no option lacked its argument or no positional is there for it to take |
| OptParser.Parser.Reset | getopt/optparser.cpp:6-15 | Establishes the invariant of all later states with nothing given and the vector untouched |
| OptParser.Parser.Next | getopt/optparser.cpp:17-111 | Each call keeps the invariant, which has the bounds of the indices, the stable partition of the vector and the position inside a pack, and gives the next result of the reading; -1 comes exactly when no result is left |
| OptParser.Parser.StateSafety | getopt/optparser.cpp:17-102 | Between calls 1 <= _lastarg <= _optind <= argc; outside a pack _optind is _lastarg; inside a pack its slot is a pack of short options that has not moved, and _optpos stays inside it; the vector is a permutation of the given one |
| OptParser.PartitionIsPermutation | getopt/optparser.cpp:80-102 | The stable partition is a permutation at every point of a run |
| OptParser.Parser.Scan | getopt/optparser.cpp:18-27 | Passing over positionals stops at the next option or the end, and recovers the scan position that the parser does not store |
| OptParser.Parser.NextLetter | getopt/optparser.cpp:36-104 | One letter of a pack: attached argument, following slot, missing argument or flag; the slot is compacted only when its pack is finished |
| OptParser.Parser.ReadLetter | getopt/optparser.cpp:36-77 | The letter at the position and the position behind it: either its slot is finished, and the results to come are its own and those behind the slots it used, or they are its own and those of the rest of the pack |
| OptParser.Parser.FinishPack | getopt/optparser.cpp:80-102 | A finished pack is compacted, and the results to come are those of the slots behind it |
| OptParser.Parser.NextLong | getopt/optparser.cpp:47-108 | One long option, or "--", which ends the run with the final layout |
| OptParser.Parser.ResolveShort | getopt/optparser.cpp:38-75 | The table search for a letter gives the first row that matches, its argument and the slots used |
| OptParser.Parser.ResolveLong | getopt/optparser.cpp:47-75 | The table search for a long name, which is the text up to the first '=' |
| OptParser.Parser.Compact | getopt/optparser.cpp:82-98 | The two overlapping moves through the two-slot buffer are the rotation of one or two slots down to the last option |
| OptParser.TwoMoves | getopt/optparser.cpp:86-98 | The same on values, for all positions and any number of slots |
| OptParser.Parser.FinishSlot | getopt/optparser.cpp:80-102 | A finished slot joins the taken ones and the partition is kept |
| OptParser.Parser.FinishStop | getopt/optparser.cpp:80-108 | After "--" the vector has its final layout |
| OptParser.PartitionSkip | getopt/optparser.cpp:19-22 | Passing over positionals keeps the partition and changes no later result |
| OptParser.PartitionTake | getopt/optparser.cpp:82-101 | Rotating the slots of an option down keeps the partition: taken slots and positionals stay in their original order, the rest of the vector as it was |
| OptParser.PartitionEnd | getopt/optparser.cpp:24-27 | With everything read, the partition is the final layout |
| OptParser.PartitionStop | getopt/optparser.cpp:80-108 | With "--" taken, the vector is the taken slots, the positionals before it and the raw tail behind it |
| OptParser.PackStep | getopt/optparser.cpp:40-81 | Reading one letter takes exactly one result off those to come, whether or not it finishes the slot, and an option that takes the next slot finishes its pack |
| OptParser.LongStep | getopt/optparser.cpp:47-75 | Reading one long option takes one result off those to come; "--" matches no option and leaves none |
| OptParser.NeverEnd | getopt/optparser.cpp:106-110 | No option is reported with the code that ends a run |
| OptionGrammar.TwoSlotsFinishPack | getopt/optparser.cpp:40-46 | An option that takes the following slot is the last letter of its pack |
| OptionGrammar.PackFits | getopt/optparser.cpp:64-69 | A second slot is taken only where there is one, and an argument is missing only at the end of the vector |
| OptionGrammar.PackFilled | getopt/optparser.cpp:64-70 | A missing argument is found once a slot follows, and the results then differ |
| OptionWords.Letters | getopt/optparser.cpp:36-46 | "-abc" gives the code of every flag and '?' for every letter that no row has |
| OptionWords.LetterJoined | getopt/optparser.cpp:40-46 | "-ofile", alone or behind flags, gives the letter's code with the argument "file", without the letter |
| OptionWords.LetterApart | getopt/optparser.cpp:64-70 | "-o file" gives it with the following slot, whatever stands there |
| OptionWords.LetterLacking | getopt/optparser.cpp:64-66 | "-o" at the end of the line gives '?' |
| OptionWords.Name | getopt/optparser.cpp:47-58 | "--name=value" gives the code of the first row of exactly this name, with the text behind the first '='; so does "--name" without an argument, for a flag |
| OptionWords.NameApart | getopt/optparser.cpp:64-70 | "--name value" gives it with the following slot |
| OptionWords.NameLacking | getopt/optparser.cpp:64-66 | "--name" at the end of the line, where an argument is wanted, gives '?' |
| OptionWords.NameUnknown | getopt/optparser.cpp:50-53 | A name that no row has in full gives '?' |
| OptionWords.WrittenIsRead | getopt/optparser.cpp:17-111 | Whatever list of options, operands and tail is written as a line, in all ways of writing an option, reading the line gives back its results, its option slots, its operands and its tail, and says whether an argument is missing |
| OptionWords.WrittenIff | getopt/optparser.cpp:17-111 | The lines without a lone '-' are exactly those that can be so written |
| OptionProofs.PermutedIsPermutation | getopt/optparser.cpp:80-102 | A run only permutes the vector |
| OptionProofs.SelectInOrder | getopt/optparser.cpp:80-102 | The slots of one kind are all those with that role, in their original order |
| OptionProofs.EndState | getopt/optparser.cpp:24-27 | From the final index on stand positionals only, in their order, and behind them what followed "--", if that ended the run |
| OptionProofs.TakenAgain | getopt/optparser.cpp:64-70 | The taken slots are read the same way whatever slots come to stand behind them, if none lacked its argument |
| OptionProofs.RunAgain | getopt/optparser.cpp:64-108 | If no option lacked its argument, or there are no positionals, the permuted vector gives the same results and the same taken slots, and is a fixed point, also for runs ended by "--" |
| OptionProofs.RunAgainIff | getopt/optparser.cpp:64-108 | The results repeat exactly in these two cases; index and vector then repeat too |
| OptionProofs.RunAgainDiffers | getopt/optparser.cpp:64-66 | For the arguments x and -o, where -o wants an argument, the second run differs from the first |
| OptionProofs.SkipPositionals | getopt/optparser.cpp:19-22 | Leading positionals change neither results nor roles of what follows |
| Crc32Table.TableEntry | src/crc.cc:12-57 | Every one of the 256 entries is eight steps of the bit-serial register |
| Crc32Register.TableRound | src/crc.cc:65-68 | One table round is eight steps of the register, for every register value |
| Crc32.HashBuffer | src/crc.cc:59-71 | The table loop computes the bit-serial register of the buffer's bits, lowest bit of each byte first |
| Crc32Register.RegisterAppend | src/crc.cc:59-71 | The register of a concatenation is that of the second part started from that of the first |
| Crc32Register.BytesAppend | src/crc.cc:78-81 | Hashing a buffer in any split gives the register of the whole |
| Crc32Register.RegisterLinear | src/crc.cc:59-71 | The register is linear over GF(2) in start value and message together |
| Crc32.BytesLinear | src/crc.cc:59-71 | The same for byte buffers of one length |
| Crc32Register.UnregisterRegister | src/crc.cc:65-68 | Running the register backwards undoes every message |
| Crc32Register.RegisterUnregister | src/crc.cc:65-68 | Every end value is reached from the value found by running backwards |
| Crc32.BytesBijective | src/crc.cc:59-71 | For a fixed buffer each end value has exactly one start value |
| Crc32Division.FeedCoefficients | src/crc.cc:12-13 | One bit moves the register up one power and adds the polynomial 0x04C11DB7 when the term that moves out asks for it |
| Crc32Division.RegisterIsRemainder | src/crc.cc:12-71 | The register after a message is the remainder of the message polynomial, with the start value added to its highest terms, on division by the generator |
| Crc32Division.RemainderIff | src/crc.cc:12-71 | No other 32 coefficients are a remainder of that division |
| Gf2Polynomial.DivisionUnique | src/crc.cc:12 | Division by a polynomial with leading coefficient one has only one answer |
| Crc32Division.CollisionIff | src/crc.cc:59-71 | Two messages of one length have the same register exactly when the generator divides their difference |
| Crc32Division.BurstDetected | src/crc.cc:59-71 | No difference within 32 consecutive bits, aligned or not, is missed |
| Crc32Division.FourByteBurstDetected | src/crc.cc:59-71 | Two buffers of one length that differ only within four consecutive bytes never have the same register |
| Crc32.ChecksumDetectsBurst | src/crc.cc:98-101 | Nor the same result |
| Crc32.TrailerResidue | src/crc.cc:73-101 | A register's own result fed back as four little-endian bytes leaves 0xDEBB20E3 |
| Crc32.TrailerIff | src/crc.cc:73-101 | A message and four bytes leave that constant exactly when the bytes are the message's checksum |
| Crc32.ChecksumIsRemainder | src/crc.cc:9-101 | The checksum is the complement of the only remainder of the message times x^32, with its 32 highest terms inverted, on division by the generator |
| Crc32.CheckValue | src/crc.cc:9-101 | The checksum of the characters "123456789" is 0xCBF43926, and that of nothing is 0 |
| Crc32.WordBits | src/crc.cc:83-86 | The four bytes of a 32-bit value carry its bits in their order, lowest first |
| Crc32.HalfWordBits | src/crc.cc:88-91 | So do the two bytes of a 16-bit value |
| Crc32.Context.constructor | src/crc.cc:73-76 | A context starts with nothing hashed |
| Crc32.Context.Init | src/crc.cc:73-76 | Initialising forgets everything hashed |
| Crc32.Context.Hash | src/crc.cc:78-81 | Adds a buffer to the bytes hashed |
| Crc32.Context.Hash32 | src/crc.cc:83-86 | Adds the four little-endian bytes of a value |
| Crc32.Context.Hash16 | src/crc.cc:88-91 | Adds the two little-endian bytes of a value |
| Crc32.Context.Hash8 | src/crc.cc:93-96 | Adds one byte |
| Crc32.Context.Result | src/crc.cc:98-101 | After any mix of calls, the checksum of all bytes hashed, in their order |
| HostV4.HostSide.SendRequest | include/ec_commands.h:1037-1042 | Steps 101 to 105 make the transition that starts a request |
| HostV4.HostSide.Receive | include/ec_commands.h:1044-1050 | Steps 201 to 208 make the transition on a reply |
| HostV4.HostSide.NoResponse | include/ec_commands.h:1052-1055 | Steps 301 to 304 make the transition on a timeout |
| HostV4.EcSide.Receive | include/ec_commands.h:1057-1082 | Steps 101 to 304 of the EC make its transition on a packet; on every path the reply carries the sequence number and duplicate flag of the packet |
| HostV4Safety.StepKeeps | include/ec_commands.h:1035-1083 | Every step of either side and every loss or damage keeps the invariant that ties packets, replies and buffers to the requests they belong to |
| HostV4Safety.RunKeeps | include/ec_commands.h:1035-1083 | So does every run |
| HostV4Safety.EcReceivesKeeps | include/ec_commands.h:1057-1082 | The EC's step keeps it: a request is processed only after every request processed before |
| HostV4Safety.HostReceivesKeeps | include/ec_commands.h:1044-1055 | The host's step keeps it |
| HostV4Theorems.ProcessedAtMostOnce | include/ec_commands.h:1067-1073 | In every run the EC processes each request at most once, and requests in the order they were made |
| HostV4Theorems.TriesBounded | include/ec_commands.h:1037-1055 | For each request the host sends at most the allowed number of packets, one at least, and exactly one with seq_dup clear |
| HostV4Theorems.GivesUpOnlyAtTheEnd | include/ec_commands.h:1044-1055 | In every run, a host that gives up has sent all the packets it is allowed, or one if less is allowed, unless step 208 stopped it |
| HostV4Theorems.SendsResponseIff | include/ec_commands.h:1060-1082 | The EC sends one reply to every packet, and it is a response exactly if the packet is intact and the data is available |
| HostV4Theorems.UnavailableNeverSent | include/ec_commands.h:1075-1082 | In every run in which the data is never available, no response is ever sent, and all a host can succeed with is an error |
| HostV4Delivery.SucceedsWithinTries | include/ec_commands.h:1037-1083 | When fewer rounds fail than a request has tries, by any mix of lost and damaged packets and replies, the host returns the response to its own request, or the error that its data is gone, with one packet a round and the request processed once |
| HostV4Delivery.FailsWithoutTries | include/ec_commands.h:1037-1083 | When as many rounds fail as it has tries, it fails, with one packet a try, all but the first with seq_dup set |
| HostV4Delivery.DamagedEnds | include/ec_commands.h:1044-1050 | The only failure that ends a request early is a damaged packet that looks like one of its own: the host takes the error for its answer, or stops at step 208 |
| HostV4Theorems.RepliesEcho | include/ec_commands.h:1067-1083 | In every run, a response on its way or accepted carries the number and duplicate flag of a packet that the host sent for the request it answers |
| HostV4Freshness.FreshFromStartIff | include/ec_commands.h:1037-1076 | For every number of tries: a request returns only its own response, processed by the EC, in every continuation, exactly if it is begun in a clear state. With two or more tries, neither the response buffer nor anything on the links carries its number; with a single one, no first packet and no response to a first packet does |
| HostV4Freshness.ClearStartIsFresh | include/ec_commands.h:1037-1076 | The first condition is enough for any number of tries, from every state, reachable or not |
| HostV4Freshness.SingleTryIsFresh | include/ec_commands.h:1037-1055 | The second is enough for a single try, from every state, reachable or not |
| HostV4Freshness.StaleReply | include/ec_commands.h:1044-1048 | A left-over response with the number is accepted in some continuation, with a single try too if it answers a first packet |
| HostV4Freshness.StaleRequest | include/ec_commands.h:1067-1076 | A left-over packet with the number is answered, and the answer accepted, in some continuation, with a single try too if it is a first packet |
| HostV4Freshness.StaleBuffer | include/ec_commands.h:1068-1069 | A response buffer with the number answers a retry, and is accepted, in some continuation, for every number of tries that allows a retry |
| HostV4Freshness.ClearWhenHeard | include/ec_commands.h:1038-1048 | In every reachable state the start is clear once the EC has heard one of the three requests before and no response to an older one is on its way |
| HostV4Freshness.FreshWhenHeard | include/ec_commands.h:1035-1083 | A request begun then, in any run, returns only its own response, and the EC has processed it exactly once |
| HostV4Heard.ClearAfterAccepted | include/ec_commands.h:1037-1083 | Once the host has accepted a response to request k, the starts of requests k + 1 to k + 3 are clear, whatever happens in between |
| HostV4Heard.FreshAfterAccepted | include/ec_commands.h:1037-1083 | Once it has accepted its own response to request k, a response accepted for k + 1 to k + 3 is that request's own, and the EC has processed it exactly once, whatever happens in between |
| HostV4Heard.RunOrdered | include/ec_commands.h:1037-1083 | In every run, the responses on their way answer requests in increasing order, none older than the one accepted last |
| HostV4Heard.FreshAllTheTime | include/ec_commands.h:1037-1083 | In every run of a host that never begins a request when three in a row went without an accepted response, counting the one in the EC's buffer at first as accepted, every accepted response is its own request's, processed exactly once, and stopping at step 208 on a response means that the request was processed |
| HostV4Heard.FourthCanBeStale | include/ec_commands.h:1037-1083 | After any accepted response of its own, the next three requests can go unheard such that the fourth, with two or more tries, takes one that is not its own |
| HostV4Theorems.FreshIff | include/ec_commands.h:1044-1048 | Looking back on any run: an accepted response is fresh exactly when it answers the host's request and the EC processed that; otherwise it is four or more requests old, and either late or sent when none of the last four requests had been processed |
| HostV4Theorems.FreshIfRecentlyProcessed | include/ec_commands.h:1067-1076 | Looking back on any run: an accepted response that is not late is fresh if the EC processed this request or one of the three before; the request has then been processed exactly once. That it is not late follows in HostV4Heard.FreshAfterAccepted |
| HostV4Theorems.LateResponseAccepted | include/ec_commands.h:1044-1050 | A run in which all requests are processed and the host takes the response to request 1 for that to request 5 |
| HostV4Theorems.UnprocessedResponseAccepted | include/ec_commands.h:1067-1076 | A run in which the EC answers a retry of request 5 with the response to request 1 |
| HostV4Theorems.LateResponseRejected | include/ec_commands.h:1048 | A late response to one of the three requests before is turned away at step 204 |
| HostV4Theorems.DroppedIsLate | include/ec_commands.h:1049 | What step 207 drops answers a request of four or more before |
| HostV4Freshness.GivenUpProcessedIff | include/ec_commands.h:1049-1050 | For every number of tries: stopping at step 208 on a response means, in every continuation, that the request was processed, exactly if there is a single try or no first packet with its number and no response to one is left on the links when it is begun |
| HostV4Freshness.SingleTryNever208 | include/ec_commands.h:1049-1055 | With a single try the host never stops there on a response |
| HostV4Freshness.ClearStartGivesUpProcessed | include/ec_commands.h:1049-1050 | A clear start is enough for this, and the host then stops with an error |
| HostV4Freshness.GivenUpThoughProcessed | include/ec_commands.h:1049-1050 | A run in which the host stops at step 208, with a try left, on a request that was processed |
| HostV4Theorems.GivenUpIsProcessed | include/ec_commands.h:1050 | Looking back on any run: a response that stops the host at step 208 comes from processing its request, or answers one of four or more before |
| HostV3Packet.RequestLayout | include/ec_commands.h:983-1004 | For a command, version and payload there is exactly one packet with version 3, zero reserved byte, the fields at their offsets and a zero sum, and it is the one that is sent |
| HostV3Packet.RequestSumsToZero | include/ec_commands.h:986-1004 | All bytes of a request add up to zero, and no other checksum byte would do that |
| HostV3Packet.RequestRoundTrip | include/ec_commands.h:986-1004 | The EC recovers command, version and payload exactly when each fits its field |
| HostV3Packet.OneByteShows | include/ec_commands.h:1010-1012 | Changing one byte of a valid packet makes its sum nonzero |
| HostV3Requests.WriteLpc | src/comm-lpc.cc:141-172 | Payload first, header after, running sum: the window at 0x800 holds the one packet of this layout, port 0x204 the byte 0xDA, and nothing else changed; a request of more than 256 bytes gives -13 and changes nothing |
| HostV3Requests.BuildI2c | src/comm-i2c.cc:95-110 | The same packet, behind the byte 0xDA |
| HostV3Requests.BuildUsb | src/comm-usb.cc:309-324 | The same packet |
| HostV3Requests.BuildServoSpi | src/comm-servo-spi.cc:114-142 | The same packet, behind the bridge command and the packet size less one, with the sum kept in eight bits |
| HostV3Requests.SumBytes | src/comm-i2c.cc:41-50 | The sum of the bytes |
| HostV3Responses.ReadLpc | src/comm-lpc.cc:186-221 | The loops over the window make the checks in their order, with their error codes, and change the caller's buffer as stated |
| HostV3Responses.ReadServo | src/comm-servo-spi.cc:208-242 | The same for the bridge, with the exits for read errors, and what they leave in the buffer |
| HostV3Responses.ReadI2c | src/comm-i2c.cc:158-191 | The same for I2C |
| HostV3Responses.ResponseLayout | include/ec_commands.h:1006-1023 | For a result and payload there is exactly one well-formed response |
| HostV3Responses.LpcCodes | src/comm-lpc.cc:193-221 | Each kind of bad response gets its own error, -5, -14 or -7, in this order, and only a wrong sum is found after the caller's buffer has been written |
| HostV3Responses.LpcTakesIff | src/comm-lpc.cc:186-221 | LPC takes a response exactly if it is a well-formed one, of any result and payload, that fits |
| HostV3Responses.ServoCodes | src/comm-servo-spi.cc:208-242 | The bridge gives -2 for everything it refuses and the result for everything it takes; what has arrived of a body that fits is in the buffer |
| HostV3Responses.I2cCodes | src/comm-i2c.cc:158-191 | I2C gives the frame's result first, then -14, -5 or -7, and writes the buffer only for a response it takes |
| HostV3Responses.WindowAt | src/comm-lpc.cc:187-213 | The response is read from port 0x800 on |
| HostV3Responses.LpcDelivers | src/comm-lpc.cc:186-221 | Every well-formed response that fits is delivered: its length returned, its payload copied, the rest of the buffer untouched |
| HostV3Responses.ServoDelivers | src/comm-servo-spi.cc:212-238 | The bridge delivers the same payload and returns the result |
| HostV3Responses.I2cDelivers | src/comm-i2c.cc:158-191 | I2C delivers the same payload, and overwrites the rest of the requested size with what followed in its receive buffer |
| HostV3Responses.LpcRefusesOneBadByte | src/comm-lpc.cc:186-218 | A response with one wrong byte outside the length field is not taken: the error is -5 for the version or the reserved field, -14 if it does not fit, and -7 otherwise |
| HostV3Responses.ServoRefusesOneBadByte | src/comm-servo-spi.cc:212-236 | Nor by the bridge, which returns its read error for it, whatever result it has read, and so not as it returns an error result |
| HostV3Responses.I2cRefusesOneBadByte | src/comm-i2c.cc:158-184 | Where the length byte of the frame is right, one wrong byte of the packet is refused over I2C, in the length field too |
| HostV3Responses.I2cReturnsTooMuchIff | src/comm-i2c.cc:166-191 | A call over I2C returns more than was asked for only if the length byte of the frame contradicts its header: exactly if a frame that passes announces more |
| HostV3Responses.I2cReturnsTooMuch | src/comm-i2c.cc:166-191 | A frame of length zero that makes a call for nothing return 65535 |
| HostV3Responses.LpcBadLengthIff | src/comm-lpc.cc:203-218 | A response with one wrong length byte is taken exactly when the claimed payload fits and the bytes it adds or drops make up for the change |
| HostV3Responses.LpcTakesBadLength | src/comm-lpc.cc:203-218 | A response with payload 0xFF whose length is read as zero is taken as empty |
| HostV3Responses.LpcServoAgree | src/comm-lpc.cc:193-218 | LPC takes a response exactly when the bridge does and its reserved field is zero, and both deliver the same bytes |
| HostV3Lpc.EcCommandLpc3 | src/comm-lpc.cc:131-222 | A whole command: the EC finds a packet it decodes to the given command, version and payload, exactly when they fit; the return value and buffer follow from the wait, the EC's result code at port 0x200 and the response; a command that gives up waiting has slept between 990005 and 1000000 microseconds |
| HostV3Lpc.SentPacket | src/comm-lpc.cc:145-172 | Byte by byte, what the EC finds at the ports of the window |
| LpcWait.WaitForEc | src/comm-lpc.cc:26-49 | Returns -1 exactly when every poll before the timeout finds the EC busy, after the first idle poll otherwise; at most 15 + T/10000 polls and T microseconds of sleep, and at least T - 9995 if it times out |
| LpcWait.FirstCounters | src/comm-lpc.cc:17-47 | After six rapid polls the delay doubles up to ten milliseconds: the counter is 20, 25 and 10255 at polls 4, 5 and 15 |
| LpcWait.LateCounter | src/comm-lpc.cc:43-44 | From poll 15 on the counter advances by ten milliseconds a poll |
| LpcWait.OnlyLastClipped | src/comm-lpc.cc:39 | Only the last sleep is ever cut short |
| LpcWait.NapsTotal | src/comm-lpc.cc:31-47 | The loop counter runs ahead of the time slept by what the delay has grown |
| LpcWait.PollBound | src/comm-lpc.cc:31-47 | The number of polls before a given time is at most 15 more than one in ten milliseconds |

## Left out

- Option parser, lone '-': the source steps past the end of a '-' that stands where an option is read, so such vectors are excluded (`NoLoneDash`); a '-' that is an option's argument or stands behind "--" is modelled.
- Option parser, calls after the end: what `next` does after it has returned -1 is not modelled.
- Option parser, tables: option names are non-empty and no option has the code -1, which ends a run.
- Option parser, characters: codes of characters are compared as unsigned, where a C `char` may be signed.
- Option parser, `flag` of an option and the global wrapper in getopt/getopt_shim.cpp: not used by the parser.
- CRC-32: the functions on the static accumulator are the context functions on one context; a little-endian host is assumed for 16 and 32 bit values.
- Protocol V4: damaged packets are assumed to be detected, so the strength of its CRC-8 is not modelled; nor are the field masks of its headers, except that the sequence number has two bits.
- Protocol V4: processing a request and answering it is one step, and so is handling a reply; whether the data of a response is still available is an arbitrary choice at every answer.
- Servo bridge: waiting for the start of a frame is not modelled; a read or write error is the end of the stream of bytes.
- HostV4Theorems.FreshIff: looks back on a finished run; the condition before a request is begun is that of HostV4Freshness.FreshFromStartIff.
- HostV4Theorems.FreshIfRecentlyProcessed: looks back on a finished run and takes it that the accepted response is not late; HostV4Heard.FreshAfterAccepted derives that from the order of the link and an earlier accepted response.
- HostV4Theorems.GivenUpIsProcessed: leaves open whether the response is late; HostV4Freshness.GivenUpProcessedIff and HostV4Heard.FreshAllTheTime say when it cannot be.
- HostV3Requests.BuildServoSpi: the value of the bridge's command byte comes from a header that is not part of this model, so it is a parameter; the scan for bytes that say the EC was not listening is left out.
- HostV3Requests.BuildI2c: the limits on request and response size are variables set elsewhere and are left out, as are the bus transfers and failing allocations.
- USB responses: their fields are copied out without a version or checksum check, so no decoder of them is modelled.
- HostV3Lpc.EcCommandLpc3: the ports are an array of bytes that only the host changes before the wait and only the EC during it.
- Sizes: payload sizes are natural numbers, where the source has signed sizes and would take some negative ones for small.
- Overflow of the int sums in sum_bytes, for payloads of more than eight million bytes.
- LpcWait.WaitForEc: timeouts so long that the loop counter would overflow an int are excluded.
- Protocol V2 over LPC and reading mapped memory: byte copies over the same ports, with an eight-bit sum.
- Device discovery, src/comm-dev.cc, src/comm-win32.cc and src/comm-host.cc: calls into the system.
- Command structures, field macros and configuration headers: fixed-width layouts without state.
