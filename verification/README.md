# Verified model of the onion-routing chat system

The repository is an anonymous messaging system. Relay nodes announce themselves to a central
server; a client asks that server for the alive relays, draws a path of 3 to 10 of them, hands every
relay a conversation (an id, a key and its successor) and then sends layered packets that only the
last relay can read. User names are resolved by a mapping server, with a home-made RSA between the
programs. This project models that behaviour in Dafny and proves what the system relies on.

`dafny verify dfyconfig.toml` checks everything.

| module | about |
|---|---|
| `Basics`, `Arithmetic`, `Totient` | machine integers and C++ remainders; divisibility, primes, Euclid; Euler's totient and theorem |
| `RsaMath`, `RsaHandler`, `RsaKotlin`, `RsaPython` | the RSA scheme, and its three implementations with their integer widths |
| `ForeignKeys` | which keys of the mapping server the C++ side can encrypt for |
| `Text`, `RsaText`, `Interop` | splitting, joining, decimal numbers; encrypted lists as text; C++ and Kotlin talking to each other |
| `Framing`, `Packets`, `Addresses` | length-prefixed frames over TCP; direct and user-name packets; IPv4 checks and next-hop messages |
| `Ping`, `Registry`, `Announcements` | the alive message and its checks; the list of alive nodes and its sweep; both together |
| `Cbc`, `Onion`, `Circuit`, `Journeys` | block chaining and padding; layers; the handshake protocol of any number of clients; packets and replies over finished circuits |
| `Session` | the client's sessions with its front ends: design, timers, sending |

Strings of the C++ programs are sequences of bytes. Loops and objects that the programs update in
place are methods and classes; each is tied to a specification function, and the properties are
lemmas about those functions and over all runs of the state machines.

The main results:

- **RSA** (`MessageRoundTrip` in `RsaHandler` and `RsaKotlin`): decryption restores exactly the
  messages a key can carry. With distinct primes these are all messages of characters below the
  modulus; when the two primes coincide, which nothing prevents, characters that are multiples of the
  prime are lost. The number theory behind it is proved from the definition of the totient.
- **Fixed widths** (`ModPowExact` in both): exactly for which moduli the wrapping power loops are right.
  A node encrypts for the mapping server with a modulus that may lie above its own bound;
  `ForeignKeys.SafeExponents` says exactly for which exponents every key the server can generate is
  still safe, with a failing key for each of the others.
- **Circuits** (`Journeys.CircuitDelivers`, `ReplyIsRead`, `AnyRouteCanFinish`, `LineReachesExit`):
  in every interleaving of handshakes, new designs, timeouts, next-hop deliveries and packets under way, onions
  follow exactly the chosen relays, also when one repeats; replies come back; every route can be
  completed; and the exit sees the packet that was typed. Packets leave an intact circuit intact, so it
  works until one of its conversations expires (`WorksUntilExpiry`, `EveryOnionArrives`), and a packet that
  comes too early breaks it for good (`PacketDecides`).
- **Registry** (`SweepHalvesRuns`, `SweepsSuffice`, `NeverRemoved`, `SilentNodeGoes`, `AcceptedExactly`):
  one sweep removes only every other entry of a dead run; when repeated sweeps suffice; who stays
  listed, who goes and when; and exactly which messages are accepted.
- **Wire formats** (`SplitJoin`, `ReceiveStream`, `CutOffBody`, `DispatchAgrees`): exact conditions for all of
  them; `DecryptIff` and `ReactsExactly` say which packets a node acts on.
- **Session** (`SafeExactlyWhen`, `SafeWithOwnAnswers`, `SafeBetweenDesigns`, `EverySendSafe`): front ends may
  connect at any time and share one path, and others run while a session waits for the network; exactly
  when a packet that leaves can be followed through the keys its relays were given to the exit. How long
  a path lives (`PathLifetime`), when sessions end (`OneEndEndsAll`), and that a front end can always
  start again (`DesignDelivers`).

Properties that the code does not have in full, each with its exact condition in the table:

- A printed list of zero numbers cannot be parsed (`RsaText.ListRoundTrip`), and characters of 128 and
  above make numbers the mapping server cannot read (`RsaText.KotlinListRoundTrip`, `Interop.NodeToServer`).
- `findModuloBase` fails when the predecessor of the drawn number is prime; that announcement is then
  refused (`Ping.AcceptedIff`; 2000004 is such a number, `Ping.DrawnInVain`).
- A host reply that contains `::::` is not relayed (`Packets.DirectRoundTrip`), and messages of 2^31
  bytes and more do not arrive (`Framing.FrameArrivesIff`).
- With two front ends a packet can leave over relays that have no key yet, with the key of a relay of an
  older path, or to the entry node of an older path (`Session.StaleSessionSends`, `LateAnswerRun`,
  `OldEntryRun`; exact condition in `SafeExactlyWhen`).
- C++ `mod_pow` fails for some keys of the mapping server with exponents 13, 17, 19 and 23
  (`ForeignKeys.UnsafeKeyExists`).
- The Kotlin primality test rejects 2 (`RsaKotlin.RSAHandler.IsPrime`).
- A trailing dot is accepted in IPv4 addresses (`Addresses.Ipv4Iff`), and the check throws on very large parts
  (`Addresses.Ipv4Throws`).
- A design command takes the path of all front ends away even when its length is refused
  (`Session.CommandOutcome`), and when one front end leaves, all sessions end (`Session.OneEndEndsAll`).
- A next hop with an invalid address or port 0 silently makes the node an exit (`Addresses.AnnouncedNext`).

## Model

| member | source | states |
|---|---|---|
| Totient.PhiTwoPrimes | ServerProject/RSAHandler.cpp:144-162 | the totient of a product of two primes is (p-1)(q-1) for distinct primes and p(p-1) for equal ones; proved from counting units, not assumed |
| Totient.PhiPrimePower | ServerProject/RSAHandler.cpp:148-156 | dividing a prime power out of a number with a coprime rest multiplies the totient by p^(k-1)(p-1), which is what one pass of the factor loop does |
| Totient.TotientStep | ServerProject/RSAHandler.cpp:148-156 | the factor loop keeps result = phi(n0/n)*n with n0/n and n coprime, and the division in `result -= result / i` is exact |
| Totient.TotientLast | ServerProject/RSAHandler.cpp:157-161 | after the loop the rest is 1 or a prime, and the final correction makes the result the totient of the input |
| Totient.Euler | ServerProject/RSAHandler.cpp:184-196 | Euler's theorem for every modulus, by permuting the units; the reason why the private exponent undoes the public one |
| Totient.RestoredDistinct | ServerProject/RSAHandler.cpp:69-78 | for distinct primes, a power with exponent congruent to 1 modulo the totient is the number itself modulo p*q, also for numbers sharing a factor with p*q |
| Totient.RestoredEqual | ServerProject/RSAHandler.cpp:9-16 | for a repeated prime the same holds modulo p*p for every number p does not divide |
| Totient.SquareKillsMultiples | ServerProject/RSAHandler.cpp:9-16 | for a repeated prime every multiple of p is sent to 0 by an exponent of at least 2, so it cannot come back |
| RsaMath.LeastCoprimeIsPrime | ServerProject/RSAHandler.cpp:174-182 | the first number from 2 on that is coprime to the totient is the least prime not dividing it |
| RsaMath.SmallExponent | MappingServer/src/RSAHandler.kt:128-136 | below 6469693230, the product of the first ten primes, the public exponent is at most 29 |
| RsaMath.ExponentsRestore | ServerProject/RSAHandler.cpp:39-52 | for every generated key and every number: the two exponents in turn restore the residue, except that a repeated prime factor of the number gives 0 |
| RsaMath.PrimitiveRoundTrip | ServerProject/RSAHandler.cpp:69-78 | decrypting an encrypted character gives its truncated remainder by the modulus, negative `char` values included, or 0 in the repeated-prime case |
| RsaMath.InverseUnique | ServerProject/RSAHandler.cpp:203-224 | a coprime number has only one inverse in [0, t), so any two algorithms that find one agree |
| RsaMath.SearchEnds | MappingServer/src/RSAHandler.kt:154-162 | the unbounded search for k with e dividing k*t+1 succeeds at some k from 1 to e-1 |
| RsaMath.SearchFindsInverse | MappingServer/src/RSAHandler.kt:154-162 | whatever the search stops at yields the inverse of e modulo the totient, in [0, t) |
| RsaHandler.ExactWithoutOverflow | ServerProject/RSAHandler.cpp:184-196 | square-and-multiply on wrapping 64-bit integers returns the truncated remainder of result*base^exponent whenever no product it goes on to use overflows |
| RsaHandler.SmallNeverOverflows | ServerProject/RSAHandler.cpp:184-196 | with operands below the safe modulus no product of the loop overflows, for every exponent |
| RsaHandler.ModPowCorrect | ServerProject/RSAHandler.cpp:184-196 | mod_pow is base^exponent mod modulus for every exponent > 0, modulus up to 3037000500 and abs(base) below that |
| RsaHandler.ModPowExact | ServerProject/RSAHandler.cpp:184-196 | mod_pow is base^exponent mod modulus for all residues and all positive exponents if and only if the modulus is at most 3037000500 |
| RsaHandler.BoundSquareWraps | ServerProject/RSAHandler.cpp:184-196 | for every larger modulus the residue 3037000500 with exponent 2 gives a wrong result |
| RsaHandler.ModulusSign | ServerProject/RSAHandler.cpp:184-196 | the sign of the modulus does not matter, for any operands and any exponent |
| RsaHandler.CharRoundTrip | ServerProject/RSAHandler.cpp:44-47 | a character survives encryption and decryption if and only if it is 0, or smaller than p*q in absolute value and, when p = q, not a multiple of p |
| RsaHandler.MessageRoundTrip | ServerProject/RSAHandler.cpp:39-52 | a string survives if and only if each of its characters does |
| RsaHandler.EveryMessageSurvives | ServerProject/RSAHandler.cpp:69-78 | with distinct primes and a modulus above 128 every byte string survives |
| RsaHandler.TotientAtLeastThree | ServerProject/RSAHandler.cpp:174-182 | the totient leaves room for a public exponent exactly when p*q > 6 |
| RsaHandler.RSAHandler.Init | ServerProject/RSAHandler.cpp:6-17 | for any two primes whose product fits, the constructor either throws, exactly when p*q <= 6, or ends with a matching key pair |
| RsaHandler.RSAHandler.Encrypt | ServerProject/RSAHandler.cpp:39-52 | throws exactly when a peer key number is missing; otherwise encrypts character by character, and as the mathematical scheme does for a peer modulus within the safe bound |
| RsaHandler.RSAHandler.Decrypt | ServerProject/RSAHandler.cpp:69-78 | every character read is congruent modulo 256 to the power computed for its number; for own keys within the safe bound the numbers are decrypted as the mathematical scheme does |
| RsaHandler.RSAHandler.IsPrime | ServerProject/RSAHandler.cpp:164-172 | trial division decides primality for every 64-bit integer |
| RsaHandler.RSAHandler.ComputeTotient | ServerProject/RSAHandler.cpp:144-162 | the loop computes the number of residues coprime to n, for every n >= 1 |
| RsaHandler.RSAHandler.Gcd64 | ServerProject/RSAHandler.cpp:226-233 | returns the greatest common divisor |
| Arithmetic.GcdGreatest | ServerProject/RSAHandler.cpp:226-233 | every common divisor divides the result of the Euclidean recursion, so it is the greatest one |
| RsaHandler.RSAHandler.GenerateE | ServerProject/RSAHandler.cpp:174-182 | throws exactly for totients up to 2; otherwise returns the least prime not dividing the totient, at most 29 below 6469693230 |
| RsaHandler.RSAHandler.ModPow | ServerProject/RSAHandler.cpp:184-196 | the loop computes the wrapped square-and-multiply value for every operand, and 1 for an exponent that is not positive |
| RsaHandler.RSAHandler.ModInverse | ServerProject/RSAHandler.cpp:203-224 | for coprime a >= 1 and m >= 1 returns the inverse in [0, m), never dividing by zero nor leaving 64 bits |
| RsaHandler.EuclidIteration | ServerProject/RSAHandler.cpp:209-219 | one round of extended Euclid: the divisor is positive, abs(y)*a + abs(x)*m stays the modulus, signs alternate, and no intermediate exceeds the modulus |
| RsaHandler.EuclidDone | ServerProject/RSAHandler.cpp:221-223 | when the loop stops, adding the modulus at most once gives the inverse in range |
| RsaKotlin.ModPowCorrect | MappingServer/src/RSAHandler.kt:138-152 | modPow on unsigned 64-bit integers is base^exponent mod modulus when modulus and base are within 2^32, and for every base when the modulus divides 2^64 |
| RsaKotlin.ModPowExact | MappingServer/src/RSAHandler.kt:138-152 | modPow is base^exponent mod modulus for all residues and all positive exponents if and only if the modulus is at most 2^32 or divides 2^64 |
| RsaKotlin.FactorsFit | MappingServer/src/RSAHandler.kt:16-22 | two primes up to the default key size have a product below 2^32, so the 32-bit multiplication of `p * q` is exact |
| RsaKotlin.GeneratedModulus | MappingServer/src/RSAHandler.kt:16-25 | a generated key has a modulus from 65536 to 2^32 - 1 and a public exponent from 3 to 29 |
| RsaKotlin.MessageRoundTrip | MappingServer/src/RSAHandler.kt:47-77 | a string survives if and only if each of its code units is 0 or below p*q and, when p = q, not a multiple of p |
| RsaKotlin.EveryStringSurvives | MappingServer/src/RSAHandler.kt:86-94 | with a generated key every string survives, unless the two primes coincide and the string contains the character with that code |
| RsaKotlin.RSAHandler.constructor | MappingServer/src/RSAHandler.kt:16-25 | for any two primes the generator accepts, initialisation never throws and ends with a matching key pair below 2^32 |
| RsaKotlin.RSAHandler.Encrypt | MappingServer/src/RSAHandler.kt:47-60 | throws exactly when a peer key number is missing; otherwise encrypts as the mathematical scheme does for peer moduli up to 2^32 |
| RsaKotlin.RSAHandler.Decrypt | MappingServer/src/RSAHandler.kt:68-77 | every character read is congruent modulo 65536 to the power computed for its number; numbers below 2^32 are decrypted as the mathematical scheme does |
| RsaKotlin.RSAHandler.IsPrime | MappingServer/src/RSAHandler.kt:118-126 | accepts exactly the primes other than 2, which the bound of the loop rejects |
| RsaKotlin.RSAHandler.ComputeTotient | MappingServer/src/RSAHandler.kt:96-116 | the loop computes the number of residues coprime to n for every n from 1 to 2^64 - 1, and 0 for 0; it terminates and never divides by zero although `i * i` wraps around for large n |
| RsaKotlin.RSAHandler.GenerateE | MappingServer/src/RSAHandler.kt:128-136 | throws exactly for totients up to 2; otherwise returns the least prime not dividing the totient, at most 29 below 6469693230 |
| RsaKotlin.RSAHandler.CalculateD | MappingServer/src/RSAHandler.kt:154-162 | the search terminates, k*t+1 never overflows on the way, and the result is the inverse modulo the totient |
| RsaPython.CodePointRoundTrip | Python_POC/RSA.py:71-88 | `chr` never fails on an encrypted code point, and returns it exactly when it is 0 or below p*q and, when p = q, not a multiple of p |
| RsaPython.RSA.constructor | Python_POC/RSA.py:7-16 | for any two odd primes the initialiser ends with a matching key pair |
| RsaPython.RSA.Encrypt | Python_POC/RSA.py:71-80 | nothing without a peer key; otherwise one power per code point |
| RsaPython.RSA.Decrypt | Python_POC/RSA.py:82-88 | fails exactly when some decrypted number is not a code point |
| RsaPython.RSA.ComputeTotient | Python_POC/RSA.py:34-45 | the loop computes the number of residues coprime to n, on unbounded integers |
| RsaPython.RSA.CalculateD | Python_POC/RSA.py:64-69 | the search terminates with the inverse for every coprime pair, on unbounded integers |
| ForeignKeys.ShortExponentSafe | ServerProject/RSAHandler.cpp:184-196 | for exponents up to 12 no character overflows mod_pow, whatever the modulus up to 2^32 |
| ForeignKeys.SafeExponents | NodeProject/Node.cpp:673-680 | the C++ side encrypts every character correctly under every key the mapping server can generate with a given exponent if and only if the exponent is not 13, 17, 19 or 23 |
| ForeignKeys.UnsafeKeyExists | NodeProject/Node.cpp:673-680 | for each of these four exponents there is a key the mapping server can generate under which some character is encrypted wrongly |
| ForeignKeys.Exponent29Safe | MappingServer/src/RSAHandler.kt:86-136 | every generated key with exponent 29 has a modulus within the safe bound of the C++ side |
| ForeignKeys.KeySafe | NodeProject/Node.cpp:673-680 | a key with an exponent up to 12 or a modulus up to 3037000500 is safe; a caller can read both off the received key |
| Interop.NodeToServer | NodeProject/Node.cpp:672-682 | under a key with an exponent up to 12 or a modulus up to 3037000500, a message sent to the mapping server as text is read exactly when it is nonempty ASCII, and then as it was written |
| Interop.ServerToNode | NodeProject/Node.cpp:684-686 | what a node reads of any nonempty answer of the mapping server: the remainder by 256 of every character its key can carry, likewise of the remainder of a character beyond the modulus, and 0 for a multiple of a repeated prime; an empty answer throws |
| Interop.AsciiToNode | NodeProject/Node.cpp:684-686 | an ASCII answer is read back exactly when it is nonempty and the key can carry each of its characters |
| Interop.NodeToNode | ServerProject/RSAHandler.cpp:39-102 | between two C++ programs, wrapping arithmetic and text included, a message comes back exactly when it is nonempty and the key can carry each of its characters |
| Interop.PrivateKeysAgree | MappingServer/src/RSAHandler.kt:154-162 | the linear search and extended Euclid give the same private exponent, for every coprime e >= 2 and totient > 1 |
| Text.FindLeast | ServerProject/Utility.cpp:15 | `find` returns the first occurrence at or after the start, or nothing when there is none |
| Text.SplitString | ServerProject/Utility.cpp:12-21 | the loop returns the parts of the specification function, never fewer than one |
| Text.JoinSplit | ServerProject/Utility.cpp:12-21 | joining the parts with the delimiter gives the input back, for every input and every nonempty delimiter |
| Text.SplitJoin | ServerProject/Utility.cpp:12-21 | splitting a join gives the parts back if and only if no part but the last leads to an earlier delimiter and the last contains none |
| Text.SplitIsSplittable | ServerProject/Utility.cpp:12-21 | parts produced by a split always satisfy that condition, so splitting, joining and splitting again is stable |
| Text.CleanIff | ServerProject/Utility.cpp:12-21 | for the delimiter `::::` the condition on a part means: it contains no `::::` and does not end in a colon |
| Text.IsNumber | ServerProject/Utility.cpp:45-52 | true exactly for strings of digits, the empty string included |
| Text.ParseToText | ServerProject/ConversationObject.cpp:362 | a printed integer followed by text that cannot extend it is parsed back, when it is within the limits of the type |
| Text.ParseNumeral | ServerProject/ConversationObject.cpp:362 | what a number in a text is read as: any blanks, an optional sign, the longest run of digits, anything after it; out of range exactly beyond the limits of the type |
| Text.NoNumeral | ServerProject/ConversationObject.cpp:362 | without a digit in that place there is no number |
| Text.ParseAllDigits | ServerProject/Server.cpp:218 | a string of digits parses to its value, throws when it is empty and overflows exactly when the value exceeds the type |
| RsaText.PrintNumbers | ServerProject/RSAHandler.cpp:54-67 | the loop prints the numbers between brackets, separated by a comma and a blank |
| RsaText.ParseEncryptedString | ServerProject/RSAHandler.cpp:87-102 | cutting numbers off the front gives the numbers between the separators, or throws at the first malformed one |
| RsaText.ListRoundTrip | ServerProject/RSAHandler.cpp:54-102 | a printed list is read back unless it is empty; then parsing throws |
| RsaText.SecretTextRoundTrip | ServerProject/RSAHandler.cpp:80-85 | over text, a nonempty message comes back exactly when its characters can be carried by the key |
| RsaText.KotlinListRoundTrip | MappingServer/src/RSAHandler.kt:79-83 | the mapping server reads a printed list exactly when it is nonempty and has no negative number |
| RsaText.ListInContext | ServerProject/RSAHandler.cpp:86-105 | text before and after a printed list makes no difference to the C++ parser |
| RsaText.ListUnbracketed | ServerProject/RSAHandler.cpp:86-105 | nor does a missing bracket |
| RsaText.KotlinDropsEnds | MappingServer/src/RSAHandler.kt:79-83 | the Kotlin parser drops the first and the last character whatever they are, and fails on fewer than two |
| RsaText.ULongIff | MappingServer/src/RSAHandler.kt:81 | which texts are an unsigned number, and which number: digits after at most one plus sign, below 2^64 |
| RsaText.KeyTextRoundTrip | ClientProject/Client.cpp:487-496 | both numbers of a public key are read back, with or without the newline that ends the message |
| Framing.HeaderRoundTrip | ServerProject/IConnection.cpp:76 | a length written as little-endian bytes is read back modulo the width of the header |
| Framing.SendData | ServerProject/IConnection.cpp:71-85 | appends exactly one frame to what the peer will receive |
| Framing.SendDataChecked | ServerProject/ClientConnection.cpp:118-153 | appends one frame and throws exactly when the length does not fit a positive `int` |
| Framing.Socket.Recv | ServerProject/IConnection.cpp:123 | any nonempty prefix of what is still to arrive, up to the limit; nothing only after the peer has closed |
| Framing.ReceiveData | ServerProject/IConnection.cpp:102-140 | under every fragmentation, in chunks of at most 4096 bytes, the loop terminates, returns the body named by the header and leaves the next frame untouched; it throws when the peer closes inside a body |
| Framing.ReceiveDataOrEmpty | ServerProject/ClientConnection.cpp:223-276 | the client end consumes the same bytes and reports the same failure as an empty message |
| Framing.ReceiveStream | ServerProject/IConnection.cpp:102-140 | every sequence of messages is read back as sent, and what follows them stays unread |
| Framing.FrameArrivesIff | ServerProject/IConnection.cpp:78 | a message arrives if and only if it is shorter than 2^31 bytes; of a longer one the receiver gets a length and then the end of the connection |
| Framing.CutOffBody | ServerProject/IConnection.cpp:121-132 | a frame cut off inside its body is never taken for a message, wherever the cut is |
| Framing.CutOffHeader | ServerProject/IConnection.cpp:103-121 | cut off inside its header it is the empty message when all bytes of the length that arrived are zero, and a failure otherwise |
| Packets.FormatData | ServerProject/Utility.cpp:160-171 | the replace loop terminates and computes the one-pass replacement of escapes by newlines |
| Packets.UnescapeLeavesNone | ServerProject/Utility.cpp:160-171 | no escape sequence is left, not even one created by a replacement |
| Packets.EscapeRead | ServerProject/Utility.cpp:160-171 | the first escape of a text becomes a line feed and the rest is treated likewise |
| Packets.NothingToUnescape | ServerProject/Utility.cpp:160-171 | a text without escapes stays as it is |
| Packets.UnescapeKeepsDelimiters | ServerProject/Utility.cpp:160-171 | formatting neither creates nor destroys a `::::` |
| Packets.DirectRoundTrip | ServerProject/ConversationObject.cpp:337-364 | a printed address with data is read back if and only if the data contains no delimiter |
| Packets.PairRoundTrip | ServerProject/ConversationObject.cpp:266-398 | a printed address pair is read back |
| Packets.DestinationIff | ServerProject/ConversationObject.cpp:345-398 | which texts are read as an address with data, and as which: three parts without delimiters, the middle one a number that is cut to 16 bits |
| Packets.PairIff | ServerProject/ConversationObject.cpp:345-398 | which are read as an address alone |
| Packets.DispatchAgrees | NodeProject/Node.cpp:271-306 | the client forwards exactly the well-formed inputs with an acceptable target, and the exit reads each of them as it was typed: same form, same address or name, and the formatted message as payload; of the other inputs only a message to an empty name throws |
| Packets.DirectLine | ClientProject/Client.cpp:212-223 | a line to an address is forwarded exactly when the address has 7 to 15 characters and the port is not 0; the exit then reads that address and the formatted message |
| Packets.NamedLine | ClientProject/Client.cpp:224-234 | a line to a user name is forwarded unless the name is empty, which throws; the exit reads the name and the formatted message |
| Packets.ExitReads | NodeProject/Node.cpp:270-306 | what the exit makes of any plaintext: malformed exactly when it has neither form, and nothing is lost of a packet with a user name |
| Packets.UsernameCache.Resolve | NodeProject/Node.cpp:336-370 | a known username is answered from the cache; an unknown one is asked for, stored when the answer parses, and refused otherwise |
| Addresses.IsValidIpv4 | ServerProject/Utility.cpp:173-211 | the loop over the parts computes the specified verdict, or throws where `stoi` does |
| Addresses.Ipv4Iff | ServerProject/Utility.cpp:173-211 | accepted are exactly four decimal numbers up to 255 without leading zeros, with or without one more dot at the end |
| Addresses.Ipv4Throws | ServerProject/Utility.cpp:194-200 | the check throws exactly when one of four parts is a number beyond `int` and all parts before it are numbers up to 255 without leading zeros; everything else that is no dotted quad is refused |
| Addresses.AnnouncedNext | NodeProject/Node.cpp:501-533 | an announced successor is learned exactly when its address is valid and its port is not 0; otherwise the node becomes an exit |
| Addresses.NextIff | NodeProject/Node.cpp:506-533 | exactly which texts teach a node a successor, in terms of dotted quads and the number after them, and exactly which are failures it does not catch |
| Addresses.NextRoundTrip | ClientProject/Client.cpp:357-364 | a node learns every usable successor as the client announced it |
| Ping.IsPrime | ServerProject/Utility.cpp:65-75 | trial division decides primality |
| Ping.FindModuloBase | ServerProject/Utility.cpp:77-86 | returns the first condition number that leaves remainder 1, or 0 when there is none |
| Ping.ModuloBaseValue | ServerProject/Utility.cpp:77-86 | for composite numbers in the drawn range and every port the search succeeds if and only if the predecessor is composite, and then returns the port plus its least prime factor |
| Ping.SearchOutcome | ServerProject/Utility.cpp:77-86 | for every number and port: the search fails exactly when the predecessor has no divisor in the searched range, and otherwise returns the port plus the least one |
| Ping.BuildAliveFormat | NodeProject/Node.cpp:625-637 | the message is the seven fields sealed by both hashes |
| Ping.AliveFields | NodeProject/Node.cpp:625-637 | splitting a built message gives the nine fields as they were written |
| Ping.AcceptedIff | ServerProject/Server.cpp:210-281 | the server accepts a built message if and only if the predecessor of the drawn number is composite and the message is less than MAX_PING_ALIVE_MS old and not from the future |
| Ping.FailedSearchRefused | ServerProject/Server.cpp:248-254 | after a failed search the condition number 0 does not pass the server's modulus check |
| Ping.DrawnInVain | ServerProject/Utility.cpp:77-120 | 2000004 can be drawn, the search then fails at every port, and the announcement is refused |
| Ping.AcceptedExactly | ServerProject/Server.cpp:210-281 | exactly which messages are accepted, whoever sent them: number fields within their types, a time stamp less than 2 seconds old, a number that is not prime, a condition number that leaves remainder 1, and both hashes over the fields before them |
| Ping.ThrownExactly | ServerProject/Server.cpp:210-258 | exactly which messages throw instead of being refused, and exactly which divide by zero |
| Registry.SweepKeepsLive | ServerProject/Server.cpp:334-346 | a pass keeps every live entry, in order |
| Registry.SweepKeepsOrder | ServerProject/Server.cpp:334-346 | what a pass leaves is a subsequence of the list |
| Registry.SweepHalvesRuns | ServerProject/Server.cpp:334-346 | a pass shrinks every maximal run of dead entries of length L to exactly floor(L/2) |
| Registry.SweepsSuffice | ServerProject/Server.cpp:334-346 | k passes leave only live entries if and only if every dead run was shorter than 2^k |
| Registry.LogarithmicSweeps | ServerProject/Server.cpp:334-346 | k passes with 2^k > n leave exactly the live ones of n entries |
| Registry.RunUnique | ServerProject/Server.cpp:168-183 | over every run of pings and sweeps an address has at most one entry |
| Registry.CountsPings | ServerProject/NodeData.cpp:79-83 | over every run an entry has the time of the last ping of its address, and its count is the number of pings since it was inserted, modulo 2^32 |
| Registry.NeverRemoved | ServerProject/Server.cpp:387-390 | over every run with nondecreasing times, a node whose last ping is at most MAX_TIME_ALIVE old at every sweep stays listed |
| Registry.SilentNodeGoes | ServerProject/Server.cpp:334-346 | over every run, once the entry of an address stays dead and the address does not ping, it is gone after at most its position plus one sweeps, whatever else pings |
| Registry.NodeData.UpdateLastAliveMessageTime | ServerProject/NodeData.cpp:79-83 | refreshes the time and adds one to the count, and changes nothing else |
| Registry.Server.GetNodeInVector | ServerProject/Server.cpp:311-324 | returns the first entry with the address, or none |
| Registry.Server.HandlePing | ServerProject/Server.cpp:168-183 | an accepted ping refreshes the entry of its address or appends a new one; all others stay as they are |
| Registry.Server.CheckAliveNodes | ServerProject/Server.cpp:334-346 | the in-place loop with its advancing index computes exactly one pass |
| Announcements.OwnMessageHandled | ServerProject/Server.cpp:147-183 | a node's own message registers or refreshes exactly that node, unless it was late or the predecessor of its number is prime; then the list stays as it is |
| Announcements.AnnouncedExactly | ServerProject/Server.cpp:147-183 | exactly which messages register an address, whoever sent them, and which address; the port is cut to 16 bits |
| Announcements.EveryEntryAnnounced | ServerProject/Server.cpp:147-183 | over every run, each entry stems from a message for its address that passed all checks |
| Announcements.HandlingIsRun | ServerProject/Server.cpp:147-183 | refused messages leave no trace: handling everything received is the run of the accepted pings and the sweeps |
| Announcements.StaysListed | NodeProject/Node.cpp:640-657 | a node whose accepted messages leave no gap of more than MAX_TIME_ALIVE before a sweep stays listed, with the count of its accepted messages, whatever else arrives |
| Cbc.ChainRoundTrip | ServerProject/AesHandler.cpp:54-76 | chained blocks decrypt to what was encrypted, for every block permutation (section 6.2 of NIST SP 800-38A) |
| Cbc.ChainedBlocks | ServerProject/AesHandler.cpp:54-55 | every block of a ciphertext is the encryption of its plaintext block combined with the ciphertext block before it, or with the initialisation vector |
| Cbc.FirstBlock | ServerProject/AesHandler.cpp:54-55 | the key and the vector of a conversation are used as such |
| Cbc.AesRoundTrip | ServerProject/AesHandler.cpp:42-87 | decryption inverts encryption, and the ciphertext is the next multiple of 16 above the message length |
| Cbc.DecryptIff | ServerProject/AesHandler.cpp:73-83 | a text is decrypted to a message only if it is the encryption of that message; every other one is an exception |
| Cbc.XorCipherLawful | ServerProject/AesHandler.cpp:54-76 | the laws asked of the block cipher are satisfiable |
| Cbc.OtherKeyFails | ServerProject/AesHandler.cpp:42-87 | under that instance a layer made with one key is not undone with another |
| Onion.Encrypt | ClientProject/Client.cpp:601-609 | wrapping from the last relay to the first builds the nested packet |
| Onion.Decrypt | ClientProject/Client.cpp:651-662 | unwrapping from the first relay to the last computes the specified value, or throws where the cipher does |
| Onion.PeelOne | NodeProject/Node.cpp:219 | a relay finds its own header in front and, one layer down, the packet of the next relay, 90 to 105 bytes shorter |
| Onion.PeelAllInvertsWrap | ClientProject/Client.cpp:601-609 | peeling first to last inverts wrapping last to first, for every path length, keys and plaintext |
| Onion.WrapLength | ClientProject/Client.cpp:601-609 | the length of an onion of n layers lies between m+90n and m+105n |
| Onion.UnwrapInvertsReply | NodeProject/Node.cpp:165-167 | the client undoes all layers a reply collected, for every path |
| Onion.UnwrapIff | NodeProject/Node.cpp:165-167 | and takes nothing else for a reply |
| Onion.SuiteExists | ServerProject/ECCHandler.cpp:65-99 | the laws asked of the ciphers are satisfiable together |
| Circuit.Node.InstallConversation | NodeProject/Node.cpp:484-498 | stores a new conversation without overwriting and answers with the encrypted id |
| Circuit.Node.ReceiveNextHop | NodeProject/Node.cpp:500-533 | configures only that conversation, from the decrypted next-hop message |
| Circuit.Node.RemoveConversation | NodeProject/Node.cpp:416-430 | removes exactly that conversation |
| Circuit.ReactsExactly | NodeProject/Node.cpp:83-134 | which packets a node takes for a handshake, and which it passes on or delivers, with which content: exactly those made for one of its conversations |
| Circuit.ConfiguresExactly | NodeProject/Node.cpp:498-548 | a node learns what the text of a next-hop message under its key says, and nothing from any other message |
| Circuit.Node.HandlePacket | NodeProject/Node.cpp:83-134 | looks the conversation up by the decrypted header, strips header and layer, and forwards or delivers; a conversation without a successor is removed, otherwise the table is unchanged |
| Circuit.StepKeeps | ClientProject/Client.cpp:298-373 | every design, handshake, next-hop message, packet and timeout keeps the invariant that ties each known hop to the key and successor at its node |
| Circuit.PacketEffect | NodeProject/Node.cpp:173-197 | a packet changes nothing at all, or costs its node one conversation that had no successor |
| Circuit.RunKeepsInv | ClientProject/Client.cpp:298-373 | so does every interleaving of them, by any number of clients at shared nodes |
| Circuit.RepeatedId | NodeProject/Node.cpp:488-494 | when an id is issued again, the new key is not stored, and a packet gets through if and only if the old key undoes the layer made with the new one |
| Journeys.CircuitFollowsRoute | ClientProject/Client.cpp:339-373 | the hops of a client are those of the route of 3 to 10 relays it drew, each with an id its node can decrypt |
| Journeys.CircuitDelivers | NodeProject/Node.cpp:173-223 | over every run, with any steps of the network between two hops, also a new design of the client: an onion injected at the entry of a finished circuit visits exactly the chosen relays in order, also when one repeats, each in the conversation made for that hop, and the exit reads the plaintext; it stops at the first hop that is broken when the packet gets there |
| Journeys.HopPassesOn | NodeProject/Node.cpp:215-219 | an intact hop passes on exactly the packet of the next relay, at least one layer longer than the plaintext, and only the last hop delivers the plaintext |
| Journeys.SettledIntact | NodeProject/Node.cpp:448-548 | in every reachable network a hop whose next-hop message was processed stays intact until its conversation is removed |
| Journeys.IntactStays | NodeProject/Node.cpp:173-223 | over every run, packets at any node, handshakes and designs leave an intact hop intact until its own conversation expires |
| Journeys.PacketDecides | NodeProject/Node.cpp:178-197 | a packet with the header of an intact hop changes nothing; one that comes before the successor costs the hop its conversation, for every run that follows |
| Journeys.ExpiredForGood | NodeProject/Node.cpp:205-213 | a hop whose conversation has expired is never intact again |
| Journeys.EveryOnionArrives | NodeProject/Node.cpp:173-223 | any number of onions sent one after the other over an intact circuit all arrive, each relay handling each of them, and all tables are the same afterwards |
| Journeys.WorksUntilExpiry | NodeProject/Node.cpp:205-222 | over every run, with any packets handled in between, every onion arrives whenever it is sent, until a conversation of the circuit expires |
| Journeys.CircuitCanFinish | ClientProject/Client.cpp:320-373 | a designed circuit can be finished from every state of the network in which its relays have ids left |
| Journeys.AnyRouteCanFinish | ClientProject/Client.cpp:298-337 | in every reachable network every permitted route, with repetitions, can still become a working circuit |
| Journeys.ReplyIsRead | NodeProject/Node.cpp:141-170 | over every run, a reply sent back along the trail of a delivered request gets through exactly when every relay still has the conversation when the reply gets there, and a client with the keys of the circuit reads it; the network may take any steps between two hops, there and back |
| Journeys.LineReachesExit | ClientProject/Client.cpp:212-239 | from the front end to the exit: every forwarded line arrives over a circuit that is intact when the packet passes, each frame on the way gets through, and the exit makes of it the packet that was typed |
| Session.ArrivesIff | ClientProject/Client.cpp:350-368 | a packet handed to a node arrives if and only if all relays of its path hold keys, the first one is shared with that node, and no later one with another node than its relay |
| Session.StepKeepsInv | ClientProject/Client.cpp:70-373 | every event of any session or timer keeps the invariant: a path has 3 to 10 relays, every stored key was told the right successor, and a relay without a key is ahead of the session that drew the path |
| Session.EverySendInTime | ClientProject/Client.cpp:176-184 | over every run of any number of sessions, packets leave only over a path of 3 to 10 relays whose counted age is within PATH_TIMEOUT |
| Session.SafeExactlyWhen | ClientProject/Client.cpp:176-184 | over every run of any number of sessions, a packet that leaves arrives if and only if no designing session has a relay without a key ahead of it, the first key is shared with the node connected to, and no later relay holds the key of another node |
| Session.SafeWithOwnAnswers | ClientProject/Client.cpp:320-373 | over every run in which answers are stored with the relays they come from, a packet that leaves arrives if and only if no designing session has a relay without a key ahead of it and the packet goes to the first relay of the path |
| Session.SafeBetweenDesigns | ClientProject/Client.cpp:320-373 | when designs do not overlap, a packet that leaves arrives if and only if no handshakes are in progress and the packet goes to the first relay of the path |
| Session.LateAnswerLoses | ClientProject/Client.cpp:341-354 | in every state, an answer stored with another relay of a path drawn meanwhile loses all packets of that path |
| Session.LateAnswerRun | ClientProject/Client.cpp:323-354 | such a run with two front ends: all relays hold keys, the packet goes to the right entry, and it is lost |
| Session.OldEntryRun | ClientProject/Client.cpp:176-184 | a run in which all keys are right and the packet is lost since the session is still connected to the entry of an older path |
| Session.StaleSessionSends | ClientProject/Client.cpp:70-86 | in every state, once another session draws a path, a session that completed a design before loses its next packet |
| Session.EverySendSafe | ClientProject/Client.cpp:166-184 | with one session at a time, every packet that leaves arrives: it goes to the first of 3 to 10 relays that all hold their own keys, at a counted age within PATH_TIMEOUT |
| Session.NothingSentUntilDesign | ClientProject/Client.cpp:417-431 | over every run, from an expired or missing path on no session sends anything until some session draws a new path |
| Session.NothingSentUntilComplete | ClientProject/Client.cpp:725-739 | with one session at a time, not until the new design completes |
| Session.PathLifetime | ClientProject/Client.cpp:417-431 | over every run from a draw to the next one: the age is 1000 for every timer tick; up to 600 ticks the path is available unless a session drops it, from the 601st on it is gone and no event makes a packet leave |
| Session.PathDropped | ClientProject/Client.cpp:700-713 | only the end of a session, a tick beyond the limit, a design command or a line on an expired path costs the shared path |
| Session.TimersCounted | ClientProject/Client.cpp:333-336 | over every run there are as many timers as were started by finished designs and have not ended |
| Session.TimersRunOut | ClientProject/Client.cpp:419-430 | once the path has expired, each timer ticks at most once more until another path is drawn |
| Session.EndRaisesFlag | ClientProject/Client.cpp:198-205 | a session ends only by its own step, never without the stop flag, and the first one to end takes the path with it |
| Session.OneEndEndsAll | ClientProject/Client.cpp:87-205 | over every run after one session has ended: until a front end connects, no session that does anything is ready for a line again |
| Session.DesignDelivers | ClientProject/Client.cpp:70-184 | from every state in which the mutex is not lost for ever: a front end that connects and designs along any 3 to 10 relays undisturbed has its next line delivered and read as typed |
| Session.DataLineOutcome | ClientProject/Client.cpp:176-194 | what a line does over a completed path, by what was typed: a malformed one changes nothing, a message to an empty name ends the session, every other is sent as typed, and when that fails only a message to a user name ends the session |
| Session.WaitingLineOutcome | ClientProject/Client.cpp:176-194 | the same for a line that waited for a new connection |
| Session.BrokenLinkResends | ClientProject/Client.cpp:178-184 | a line that finds the connection broken leaves over a new one to the first relay of the path |
| Session.CommandParses | ClientProject/Client.cpp:375-398 | what any text after the command prefix and one character means: a length, data, or an exception |
| Session.CommandOutcome | ClientProject/Client.cpp:108-123 | a design command drops the path at once, also when its length is refused |
| Session.SilenceEnds | ClientProject/Client.cpp:246-249 | a line ends its session if and only if the last nonempty one is more than 300 seconds back |
| Session.FailureEnds | ClientProject/Client.cpp:124-196 | whatever fails while a session waits for the network ends it |
| Session.JamsExactly | ClientProject/Client.cpp:339-373 | the path mutex stays locked exactly after a design that ends without a path, an answer past its end, and a next-hop message that cannot be sent |
| Session.UndesignedSendsNothing | ClientProject/Client.cpp:70-187 | over every run, from its start on and again from its first line on an expired path, a session sends nothing before it has gone through a design of its own, even over the path of another session |
| Session.Client.AcceptElectron | ClientProject/Client.cpp:70-85 | starts a session and clears the stop flag all sessions share |
| Session.Client.StopCurrentConnection | ClientProject/Client.cpp:198-205 | drops the shared path, sets the stop flag and ends the session |
| Session.Client.SplitResponseAndSend | ClientProject/Client.cpp:212-239 | sends, refuses or ends the session as the step function says |
| Session.Client.HandleLine | ClientProject/Client.cpp:89-181 | a line up to its first wait is the step of the state machine |
| Session.Client.StartPathDesign | ClientProject/Client.cpp:298-318 | the loop draws the chosen relays, none of them with a key, and resets the counted age |
| Session.Client.NextRelay | ClientProject/Client.cpp:320-337 | the head of the handshake loop is the step of the state machine, and so is leaving the loop |
| Session.Client.HandshakeWithNode | ClientProject/Client.cpp:339-373 | the answer of a relay is stored at its index of the path of that moment; past its end the mutex stays locked |
| Session.Client.EntryConnected | ClientProject/Client.cpp:433-445 | a connection to the entry node is the step of the state machine, and a line that waited for it is sent |
| Session.Client.TimerTick | ClientProject/Client.cpp:417-431 | one tick of the timer thread is the step of the state machine |

## Left out

- Sockets, Winsock set-up, accept loops, sleeps, retries and logging: `recv` is any nonempty prefix, the
  8-byte length is read in one piece, and errors of `recv` below zero do not occur.
- Crypto++ itself: the block cipher and the sealing of ids are parameters with inverse and length laws
  that a concrete instance satisfies; SHA-256 is a parameter that prints hexadecimal digits.
- Random numbers and clocks are arguments. `pow(2, key_size - 1)` in `ServerProject/RSAHandler.cpp:7` is
  out of range for the key sizes used; the model takes any two primes whose product fits.
- Conversation ids are taken as new at their node; `ServerProject/ConversationObject.cpp:249` admits that
  this is not ensured (`Circuit.RepeatedId` says what a repeated one does).
- `sqrt` in loop guards is modelled as `i * i <= n`.
- Signed overflow and the division of the least 64-bit integer by -1 are undefined in C++; the model
  wraps around, as the target compiler does.
- Exceptions that leave a thread function end the process in C++; the model stops that conversation or
  session only.
- Pointer lifetimes, double deletes and data races: the server's handlers, sends and sweeps are atomic, and the clock
  stands still during one sweep. `printNodes` inside the sweep is output.
- An index past the end of the path throws in `ClientProject/Client.cpp:352` and `:436` while the path mutex is
  held, and so may the transmission after it. What happens then is undefined in C++; in the session model the
  mutex stays locked and no thread goes on. The age of a path is the client's own counter, which several
  timer threads advance together.
- Texts exchanged with the mapping server are taken as received in one piece;
  `ServerProject/ClientConnection.cpp:188-221` makes a single `recv` of at most 4096 bytes.
- Circuit.Node.HandlePacket: an unknown conversation is refused quietly, while
  `NodeProject/Node.cpp:111-114` calls a setter on the null pointer before checking it.
- A node keeps its connection to the next relay open; the model looks the conversation up for every packet,
  with the same key and successor. Keys of conversations travel sealed and are given to the model directly.
- The exit node's map of open host connections and its queue of host replies
  (`ServerProject/ConversationObject.cpp:189-342`), beyond the format of the queued text.
- JSON responses, the Electron front end, the database, statistics, the user-name table of
  `MappingServer/src/Server.kt` and the Python socket prototype: plumbing or easier copies.
- `generatePrime` and its two counterparts: rejection sampling that ends with probability one; the
  primality tests of the C++ and Kotlin ones are modelled.
- ECC key texts: `isValidECCPublicKey` accepts every text, so the field has no check in the model.
