# Verified model of the networking core

A Dafny model of the parts of GameNetworkingSockets that carry the most state, and proofs about them.

| area | modules |
|---|---|
| Received packet numbers: expansion, duplicate filter, counters, quality score | `Bits64`, `SequenceSpec`, `PacketHistory`, `PacketWindow`, `LinkRun`, `Quality` |
| Certificate store: scopes, trust evaluation, revocation, queries | `CertScope`, `CertTrust`, `CertChains`, `CertExpected`, `CertRank`, `CertStore` |
| IPv6 text | `Ipv6Print`, `Ipv6Parse`, `Ipv6Parser`, `Ipv6Lexer`, `Ipv6Grammar`, `Ipv6Text`, `Ipv6RoundTrip`, `Ipv6Mixed` |
| Base64, PEM, OpenSSH keys | `Base64`, `Base64Decode`, `Base64Text`, `Pem`, `PemGrammar`, `OpenSsh`, `OpenSshBuffer`, `KeyPair` |
| Ping range, link deadlines, rate limiter, variable-length integers | `PingBuckets`, `LinkThink`, `TokenBucket`, `VarInt` |
| Thinkers: the heap, the table, the threads | `HeapOrder`, `ThinkerQueue`, `ThinkerService`, `ThinkerThreads` |
| Options, bytes and pieces of sequences, for all of these | `Wrappers`, `Texts` |

Each area has a specification on plain values (sets of numbers, chains of keys, texts, maps of times), code in the form the
source has it (classes that update their fields, loops, arrays written in place) that is proved to meet the specification, and
lemmas about the specification for all inputs or all runs.

Five statements one would expect of the code are not true as they stand. The exact condition under
which each holds is proved, and inputs for which it fails are given:

- a link that adopts the first number it sees rebuilds all numbers with one offset only if the first arrivals lie in one
  block of 65536 (`LinkRun.AdoptingLinkIsConsistent`, `LinkRun.TwoOffsetsExample`);
- a scope is the intersection of its chain only if the certificates of the chain have a real item in common
  (`CertChains.ChainScopeExactly`, `CertChains.SharedPairsChainExample`);
- the size computed for base64 text is exact only if there is data or no line break (`Base64.MaxOutputIsExact`);
- an IPv6 address with a scope parses back only if the scope is below 2^31 (`Ipv6RoundTrip.FullRoundTrip`);
- `EnsureMinThinkTime(t)` brings the schedule to t or earlier only if t is above zero (`ThinkerThreads.EnsureMinIsReached`,
  `ThinkerThreads.EnsureMinNeverLater`, `ThinkerThreads.EnsureMinZeroExample`).

Where the code and its comments differ the model follows the code: `SetNextThinkTime` does not check the time again under the
lock, and `CertStore_AddKeyRevocation` does not put the root key in place first.

The heap of `HeapOrder` and `ThinkerQueue` is that of `src/public/tier1/utlpriorityqueue.h`, `PercolateDown`, `PercolateUp`,
`Swap`, `RevaluateElement`, `Insert` and `RemoveAt` included; the table below cites the places where the thinkers use it.

Given from outside, as parameters: signature verification, key digests, the certificate message parser and the hardcoded root
(`CertTrust.World`); the derivation of a public key (`KeyPair.IsDerivation`); the clock, thread locks and callbacks
(`ThinkerQueue.Environment`); and all times.

`dafny verify dfyconfig.toml` checks the whole project.

## Model

| member | source | states |
|---|---|---|
| `SequenceSpec.ExpandInverts` | src/steamnetworkingsockets/steamnetworking_statsutils.h:1263-1266 | a number is recovered from its low 16 bits exactly when it is within [-32768, 32767] of the reference |
| `SequenceSpec.CheckIsSetTest` | src/steamnetworkingsockets/steamnetworking_statsutils.h:1263-1317 | in every reachable state the check accepts exactly what a plain set of processed numbers would, and returns the expanded number |
| `SequenceSpec.RecentIsAccepted` | src/steamnetworkingsockets/steamnetworking_statsutils.h:1283-1317 | a number not processed, above the last init and at most 64 behind the maximum is always accepted |
| `SequenceSpec.CheckKeepsInv` | src/steamnetworkingsockets/steamnetworking_statsutils.h:1263-1317 | the check keeps the counter and set invariants, and an accepted packet is not yet counted as weird |
| `SequenceSpec.MissingAfter` | src/steamnetworkingsockets/steamnetworking_statsutils.h:1366-1424 | each way of processing a number fills one hole, opens one hole per number skipped, or (at a jump) closes them all |
| `SequenceSpec.ProcessKeepsInv` | src/steamnetworkingsockets/steamnetworking_statsutils.h:1332-1424 | processing keeps: drops = holes + written off + uncorrected, weird packets <= received, the path counts and the packet conservation law |
| `SequenceSpec.StepKeepsInv` | src/steamnetworkingsockets/steamnetworking_statsutils.h:1321-1326 | every event (packet with or without first-number adoption, connect, interval end) keeps the invariant |
| `SequenceSpec.RunKeepsInv` | src/steamnetworkingsockets/steamnetworking_statsutils.h:1263-1424 | every run from a fresh receiver keeps it |
| `SequenceSpec.NothingProcessedTwice` | src/steamnetworkingsockets/steamnetworking_statsutils.h:1263-1424 | in every run no number is processed twice, and the set kept is the numbers processed |
| `SequenceSpec.LatePacketWasCountedDropped` | src/steamnetworkingsockets/steamnetworkingsockets_stats.cpp:475-501 | an accepted out-of-order packet always sees a nonzero lifetime drop count, so the "no dropped packets" assertion cannot fire |
| `SequenceSpec.DroppedCoversMissing` | src/steamnetworkingsockets/steamnetworking_statsutils.h:1366-1424 | in every run lifetime drops are at least the numbers missing above the last init |
| `SequenceSpec.DroppedIsExact` | src/steamnetworkingsockets/steamnetworkingsockets_stats.cpp:322-331 | with equality in runs without a jump and without an interval end |
| `PacketHistory.RunIsCounted` | src/steamnetworkingsockets/steamnetworking_statsutils.h:1263-1424 | after every run from a fresh receiver each counter is what the sequence of arrivals alone gives: numbers received, per path and second; late, old and jumping ones; duplicates; holes; split at the last interval end; and what is processed is what the history calls new |
| `PacketHistory.OutOfOrderIsLate` | src/steamnetworkingsockets/steamnetworking_statsutils.h:1366-1390 | in every run the lifetime out-of-order count is the number of processed packets that came after one with a larger number |
| `PacketHistory.LifetimeDrops` | src/steamnetworkingsockets/steamnetworkingsockets_stats.cpp:322-331 | the drops of a whole run are those counted at the interval ends, each the largest surplus of skipped over late numbers in a stretch that ends there |
| `PacketWindow.Tracker.constructor` | src/steamnetworkingsockets/steamnetworkingsockets_stats.cpp:250-260 | a new receiver stands for the empty set of processed numbers |
| `PacketWindow.Tracker.InitMaxRecvPktNum` | src/steamnetworkingsockets/steamnetworkingsockets_stats.cpp:429-447 | the masks written by a reset stand for "everything up to n was seen" |
| `PacketWindow.Tracker.ExpandWirePacketNumberAndCheck` | src/steamnetworkingsockets/steamnetworking_statsutils.h:1263-1317 | the bit-mask check does what the check on sets does, result, counters and path masks included |
| `PacketWindow.Tracker.ExpandWirePacketNumberAndCheckMaybeInitialize` | src/steamnetworkingsockets/steamnetworking_statsutils.h:1321-1326 | the same for the variant that adopts the first number seen |
| `PacketWindow.Tracker.AdvanceWindow` | src/steamnetworkingsockets/steamnetworking_statsutils.h:1336-1364 | sliding the window by one or more blocks keeps every bit with the number it stands for |
| `PacketWindow.Tracker.TrackProcessSequencedPacket` | src/steamnetworkingsockets/steamnetworking_statsutils.h:1332-1424 | recording a packet on the masks and counters does what processing on sets does |
| `PacketWindow.Tracker.Handle` | src/steamnetworkingsockets/steamnetworking_statsutils.h:1263-1424 | any event on the masks is the step on sets |
| `PacketWindow.Drive` | src/steamnetworkingsockets/steamnetworking_statsutils.h:1263-1424 | so is any run |
| `PacketWindow.LookUp` | src/steamnetworkingsockets/steamnetworking_statsutils.h:1290-1310 | a mask bit in the window is set exactly when the number was processed or is at most the last init; the same for each path |
| `PacketWindow.MaskIsUnion` | src/steamnetworkingsockets/steamnetworking_statsutils.h:595-603 | the main mask is the union of the two path masks |
| `LinkRun.PlainLinkIsExact` | src/steamnetworkingsockets/steamnetworking_statsutils.h:566-570 | a sender of consecutive numbers over a network that drops, duplicates and reorders, within range: every number is rebuilt exactly |
| `LinkRun.OffsetIsConstant` | src/steamnetworkingsockets/steamnetworking_statsutils.h:1263-1326 | once the receiver holds a number, rebuilt minus sent is one multiple of 65536 for the rest of the run |
| `LinkRun.AdoptingLinkOffsets` | src/steamnetworkingsockets/steamnetworking_statsutils.h:590-593 | for links that adopt the first number, the offsets that occur are those of the blocks of the numbers adopted |
| `LinkRun.AdoptedIsFirstArrivals` | src/steamnetworkingsockets/steamnetworking_statsutils.h:1321-1326 | the numbers adopted can be read off the arrivals: the first, and the next only while it has wire number 1 and is refused after the check |
| `LinkRun.AdoptingLinkIsConsistent` | src/steamnetworkingsockets/steamnetworking_statsutils.h:1321-1326 | so the offset of a whole run is constant exactly when the first arrivals lie in one block of 65536 |
| `LinkRun.TwoOffsetsExample` | src/steamnetworkingsockets/steamnetworking_statsutils.h:1321-1326 | a run in range with two offsets: the first packet adopted is number 1 on the wire and is refused after the check |
| `Quality.ImperfectIsBelow100` | src/steamnetworkingsockets/steamnetworkingsockets_stats.cpp:333-427 | an imperfect interval scores at most 99 percent |
| `Quality.ScoresAreEarned` | src/steamnetworkingsockets/steamnetworkingsockets_stats.cpp:340-400 | which interval gets which score: more than 4.5 s and 5 packets, 100 if each came once and in order, else the percentage of good packets among those sent, at least 1; 0 exactly when nothing came in although packets went out and two replies timed out; none otherwise |
| `Quality.BucketExactly` | src/steamnetworkingsockets/steamnetworkingsockets_stats.cpp:340-400 | a score goes to the highest bucket whose least score it reaches |
| `Quality.TotalIsSampleCount` | src/steamnetworkingsockets/steamnetworking_stats.h:125-170 | the histogram total is the number of quality samples ever added |
| `Quality.IntervalStats.RecordQuality` | src/steamnetworkingsockets/steamnetworkingsockets_stats.cpp:340-400 | records the score of the interval in the sample list and in the right histogram bucket, and nothing otherwise |
| `Quality.IntervalStats.UpdateInterval` | src/steamnetworkingsockets/steamnetworkingsockets_stats.cpp:333-427 | scores the interval, sets the dropped and weird fractions of the packets sent, and starts the next interval |
| `CertScope.SetIntersection` | src/steamnetworkingsockets/steamnetworkingsockets_certstore.cpp:28-70 | the merge of two sorted lists is their intersection, "all" included, and is sorted |
| `CertScope.Setup` | src/steamnetworkingsockets/steamnetworkingsockets_certstore.cpp:72-87 | the items of the message in increasing order without repeats |
| `CertScope.IntersectPermits` | src/steamnetworkingsockets/steamnetworkingsockets_certstore.h:37-51 | an intersection permits exactly what both sides permit |
| `CertScope.IntersectExactly` | src/steamnetworkingsockets/steamnetworkingsockets_certstore.cpp:28-70 | whatever the lists hold, this is so exactly unless neither is "all", both hold the invalid item, and they share no other |
| `CertScope.SharedInvalidExample` | src/steamnetworkingsockets/steamnetworkingsockets_certstore.cpp:28-70 | two lists for which it is not so |
| `CertScope.PairwiseSharedExample` | src/steamnetworkingsockets/steamnetworkingsockets_certstore.cpp:28-70 | three lists, any two of which share a real item, whose intersection is "all" |
| `CertScope.SetScopeIntersection` | src/steamnetworkingsockets/steamnetworkingsockets_certstore.h:97-102 | the same for data centers, apps and the earlier expiry |
| `CertChains.EvalSound` | src/steamnetworkingsockets/steamnetworkingsockets_certstore.cpp:411-564 | evaluation keeps: every trusted key has a chain of its chosen certificates to a root, with or without cycles |
| `CertChains.NewKeyHasChain` | src/steamnetworkingsockets/steamnetworkingsockets_certstore.cpp:542-564 | a key that becomes trusted extends the chain of its signer |
| `CertChains.ChainExpiry` | src/steamnetworkingsockets/steamnetworkingsockets_certstore.cpp:411-564 | no key of a chain is revoked, and its scope expires with the first of its certificates |
| `CertChains.ChainScopeExactly` | src/steamnetworkingsockets/steamnetworkingsockets_certstore.cpp:411-564 | the scope of a trusted key is the intersection of its chain exactly when the certificates of the chain have a real item in common |
| `CertChains.SharedPairsChainExample` | src/steamnetworkingsockets/steamnetworkingsockets_certstore.cpp:411-564 | a chain of three certificates, any two of which share an app, whose first key is trusted for every app |
| `CertChains.CleanPathIsExact` | src/steamnetworkingsockets/steamnetworkingsockets_certstore.cpp:411-564 | certificates that do not list the invalid item always do |
| `CertExpected.NewestIsNewest` | src/steamnetworkingsockets/steamnetworkingsockets_certstore.cpp:528-540 | the expected certificate is the newest valid one, the first on ties |
| `CertExpected.EvalAgrees` | src/steamnetworkingsockets/steamnetworkingsockets_certstore.cpp:411-564 | without a cycle of signers, evaluation from any state gives the unique recursive definition of trust, scope and chosen certificate |
| `CertExpected.ExpectedSame` | src/steamnetworkingsockets/steamnetworkingsockets_certstore.cpp:411-564 | the recursive definition depends neither on how far evaluation has come, hence not on the visiting order, nor on the ranking it is read by |
| `CertRank.RankedIffAcyclic` | src/steamnetworkingsockets/steamnetworkingsockets_certstore.cpp:411-564 | keys can be ranked above their signers exactly when no path of signers returns to its start |
| `CertStore.TrustedExactly` | src/steamnetworkingsockets/steamnetworkingsockets_certstore.cpp:411-564 | in a store whose answers are up to date and that has no such path, a key that is neither root nor revoked is trusted exactly when it has a certificate that verifies, by a trusted signer of the store (or by itself when no root is hardcoded), and shares an app and a data center with it; the one chosen is the newest such, the first on ties |
| `CertStore.AcyclicIsExpected` | src/steamnetworkingsockets/steamnetworkingsockets_certstore.cpp:566-587 | in a store with a valid cache and no such path every key has the trust, scope and chosen certificate of the recursive definition |
| `CertStore.ScopeOfIsWellFormed` | src/steamnetworkingsockets/steamnetworkingsockets_certstore.cpp:151-220 | the scope parsed from a certificate is sorted and not empty |
| `CertStore.ParamPermits` | src/steamnetworkingsockets/steamnetworkingsockets_certstore.cpp:199-219 | a parsed parameter permits an item exactly when the message lists it, lists nothing, or lists nothing but the invalid item |
| `CertStore.SetupCert` | src/steamnetworkingsockets/steamnetworkingsockets_certstore.cpp:151-220 | a certificate is taken exactly when it has data, a 64 byte signature, parses, is not bound to an identity, has an Ed25519 key and an expiry |
| `CertStore.Store.OneTimeInit` | src/steamnetworkingsockets/steamnetworkingsockets_certstore.cpp:283-300 | puts the hardcoded root into an empty store and leaves any other alone |
| `CertStore.Store.AddKeyRevocation` | src/steamnetworkingsockets/steamnetworkingsockets_certstore.cpp:308-334 | the key is revoked from now on; all else is as before; the cache stays valid exactly when nothing changed |
| `CertStore.Store.AddCert` | src/steamnetworkingsockets/steamnetworkingsockets_certstore.cpp:336-398 | taken exactly when the message makes a certificate and its key id is not that of another key; then appended to the certificates of its key unless its signature is there, with trust as before or unknown for a new key; nothing else changes, and the cache stays valid exactly when nothing changed |
| `CertStore.Store.RecursiveEvaluateKeyTrust` | src/steamnetworkingsockets/steamnetworkingsockets_certstore.cpp:411-564 | terminates (fewer unknown keys at each level), never meets a key without certificates, and equals the evaluation on values |
| `CertStore.Store.EnsureTrustValid` | src/steamnetworkingsockets/steamnetworkingsockets_certstore.cpp:566-587 | afterwards no key is unknown, all trusted keys have chains, and acyclic stores have the expected answers; keys, certificates and revocations are untouched |
| `CertStore.Store.CheckCASignature` | src/steamnetworkingsockets/steamnetworkingsockets_certstore.cpp:589-650 | grants the scope exactly when a trusted, unexpired key of the store signed the data |
| `CertStore.Store.CheckCert` | src/steamnetworkingsockets/steamnetworkingsockets_certstore.cpp:652-704 | grants exactly when in addition the certificate parses, is in date, and its own key is not revoked |
| `CertStore.Store.CheckPublicKey` | src/steamnetworkingsockets/steamnetworkingsockets_certstore.cpp:706-731 | grants exactly when the key is trusted and in date, and then it has a chain |
| `CertStore.CheckCertAppID` | src/steamnetworkingsockets/steamnetworkingsockets_certstore.cpp:733-767 | accepts exactly when the certificate and its signer both cover the app |
| `CertStore.CheckCertPOPID` | src/steamnetworkingsockets/steamnetworkingsockets_certstore.cpp:769-804 | the same for data centers |
| `CertStore.AcceptedExactly` | src/steamnetworkingsockets/steamnetworkingsockets_certstore.cpp:589-767 | a certificate that passes also passes the app and data center checks for exactly what every certificate from leaf to root covers, in date and with no key on the way revoked, if and only if the certificates of the chain have a real app and a real data center in common or the checks accept nothing |
| `CertStore.AcceptedIsAuthorized` | src/steamnetworkingsockets/steamnetworkingsockets_certstore.cpp:652-804 | the same for some chain, in any store whose certificates do not list the invalid item |
| `CertStore.Store.PerformAll` | src/steamnetworkingsockets/steamnetworkingsockets_certstore.cpp:302-731 | after any sequence of operations a valid cache means sound and complete answers, and revocations last until the store is cleared |
| `Ipv6Print.LongestZeroRun` | src/tier1/ipv6text.c:14-40 | finds the leftmost longest run of at least two zero groups, or that there is none |
| `Ipv6Print.CompressesUniquely` | src/tier1/ipv6text.c:14-40 | there is only one such run |
| `Ipv6Print.IPv6IPToString` | src/tier1/ipv6text.c:11-93 | prints the groups in hex with exactly that run as "::" |
| `Ipv6Print.HexIsCanonical` | src/tier1/ipv6text.c:66-84 | lower-case digits, no leading zero, at most four |
| `Ipv6Print.TextIsCanonical` | src/tier1/ipv6text.c:11-93 | at most 39 characters, all of them address characters |
| `Ipv6Print.IPv6AddrToString` | src/tier1/ipv6text.c:95-121 | brackets, the address, the scope as the C library prints it with %d, and the port |
| `Ipv6Parser.ParseIPv6Addr` | src/tier1/ipv6text.c:140-429 | the in-place parser meets the parser on values: acceptance, bytes, port and scope |
| `Ipv6Parser.ReadGroups` | src/tier1/ipv6text.c:166-304 | the loop over groups, with "::" and dotted decimals |
| `Ipv6Parser.PutZeros` | src/tier1/ipv6text.c:306-325 | moving the tail and filling in zeros in place |
| `Ipv6Lexer.DigitMeans` | src/tier1/ipv6text.c:123-130 | a character is a hexadecimal digit exactly if it is the digit of that value in lower or upper case |
| `Ipv6Lexer.OctetExactly` | src/tier1/ipv6text.c:217-246 | an octet is read exactly where one to three decimal digits that spell at most 255 stand, as the number they spell |
| `Ipv6Grammar.AddressExactly` | src/tier1/ipv6text.c:155-325 | the address part is read exactly where groups of one to four digits, at most one double colon and at most one final dotted decimal stand that make 16 bytes, or fewer around the double colon; the bytes are those they spell, with zeros for the double colon |
| `Ipv6Text.ParseExactly` | src/tier1/ipv6text.c:140-429 | a text is accepted exactly when it is one of the grammar: blanks, brackets, an address, a decimal scope, and a port after a mark or the word; and the address, port and scope are those it spells |
| `Ipv6Mixed.MixedRoundTrip` | src/tier1/ipv6text.c:211-246 | six groups and a dotted decimal are the address of those bytes |
| `Ipv6Mixed.MixedGapRoundTrip` | src/tier1/ipv6text.c:211-246 | the same with a double colon, anywhere before the dotted decimal, for up to five groups |
| `Ipv6RoundTrip.PrintedExactly` | src/tier1/ipv6text.c:95-121 | the text with port and scope: brackets, the scope as a signed number of at most eleven characters with its sign, and the port in full |
| `Ipv6RoundTrip.AddressRoundTrip` | src/tier1/ipv6text.c:11-93 | parsing a printed address gives the same bytes, port -1 and scope 0 |
| `Ipv6RoundTrip.FullRoundTrip` | src/tier1/ipv6text.c:95-121 | parsing a printed address with port and scope gives all three back exactly when the scope is below 2^31, and fails otherwise |
| `Base64.Base64Encode` | src/common/crypto_textencode.cpp:190-289 | succeeds exactly when the text and its terminator fit, and then writes the encoding with line breaks; reports its length, or the length to ask for |
| `Base64.MaxOutputIsExact` | src/common/crypto_textencode.cpp:150-156 | the size computed for the buffer is the text and its terminator exactly when there is data or no line break (32 and 64 bit lengths) |
| `Base64Decode.Base64Decode` | src/common/crypto_textencode.cpp:320-432 | succeeds exactly when no character is invalid and the bytes fit; on success and failure alike, what was written is stated: all bytes, those of the whole groups before an invalid character, or as many as fit |
| `Base64Decode.Base64DecodedSize` | src/common/crypto_textencode.cpp:320-340 | without a buffer, the number of bytes it would write |
| `Base64Decode.ThreeQuartersSuffice` | src/common/crypto_textencode.cpp:554-562 | three quarters of the text is always room enough |
| `Base64Decode.RoundTrip` | src/common/crypto_textencode.cpp:190-432 | decoding an encoding returns the bytes, for line breaks made of blanks, tabs and line ends, and when lenient of anything but letters, padding and terminators |
| `Base64Decode.ClassifyExactly` | src/common/crypto_textencode.cpp:342-385 | which characters are digits, end the text, are passed over and are refused: the 64 letters, two, four more (or when lenient all others), and the rest |
| `Base64Decode.CharCode` | src/common/crypto_textencode.cpp:207 | the 64 letters of the alphabet in order |
| `Base64Text.SextetsExactly` | src/common/crypto_textencode.cpp:354-400 | strict decoding fails exactly when a character before the end is neither a letter nor a blank, tab or line end, lenient decoding never; the digits are those of the letters before the end |
| `Base64Text.OutputExactly` | src/common/crypto_textencode.cpp:354-432 | what is written, also on failure: the bytes of the letters up to the end, or of the whole groups of them before the character that is refused |
| `Base64Text.PackAt` | src/common/crypto_textencode.cpp:386-425 | each group of four digits holds three bytes, most significant bits first, and a last group of two or three digits one or two |
| `Base64Text.GroupExactly` | src/common/crypto_textencode.cpp:220-285 | the four characters written for one, two or three bytes |
| `Base64Text.LinesOf` | src/common/crypto_textencode.cpp:204-289 | a line break comes after every 54 bytes that more follow, and at the end |
| `Pem.ParsePEMHeaderOrFooter` | src/common/crypto_textencode.cpp:434-514 | the scanning loops meet the grammar of a header or footer line |
| `Pem.LocatePEMBody` | src/common/crypto_textencode.cpp:517-551 | finds the body between the two lines, or fails |
| `Pem.DecodePEMBody` | src/common/crypto_textencode.cpp:565-571 | decodes it, with a buffer that never is too small |
| `PemGrammar.BannerExactly` | src/common/crypto_textencode.cpp:434-514 | a header or footer line is found exactly where one stands: white space, dashes, the word in either case, a type that starts with the expected one, dashes, and white space |
| `PemGrammar.BodyExactly` | src/common/crypto_textencode.cpp:434-551 | a body is found exactly in the texts made of a header line, a body without dashes, a footer line and anything after it, and it is theirs |
| `PemGrammar.KindDecides` | src/common/crypto_textencode.cpp:493-502 | a text made so is refused exactly when one of its types does not start with the expected one; without an expected type any is taken |
| `OpenSshBuffer.WriteOpenSSHPrivate` | src/common/keypair.cpp:187-232 | back-patched lengths and all, the bytes written are the file of the format, 225 of them |
| `OpenSshBuffer.Writer.EndSubBlock` | src/common/keypair.cpp:173-185 | patching the hole makes a sized block, whatever the hole held |
| `OpenSshBuffer.ParseOpenSSHPrivate` | src/common/keypair.cpp:70-171 | the cursor parser meets the parser on values |
| `OpenSshBuffer.Reader.ReadFixedSizeKey` | src/common/keypair.cpp:51-62 | reads a key of exactly the expected size or fails |
| `OpenSsh.FixedParts` | src/common/keypair.cpp:40-50 | the fixed parts of a file as the characters and lengths they stand for |
| `OpenSshBuffer.FileLayout` | src/common/keypair.cpp:187-232 | the pieces of the file in order, with their lengths, both copies of the check number and of the public key |
| `OpenSsh.Big32Exactly` | src/common/keypair.cpp:173-185 | lengths are written most significant byte first |
| `OpenSsh.ParserIsExact` | src/common/keypair.cpp:70-171 | the parser accepts exactly the files of the format, with any comments, padding and trailing bytes, and returns their keys |
| `KeyPair.GetBinaryDataAsPEM` | src/common/keypair.cpp:253-278 | fails exactly below the size it asks for, and no concatenation is cut short |
| `KeyPair.RequiredIsExact` | src/common/keypair.cpp:253-258 | that size is always enough, and exact exactly when there is data |
| `KeyPair.SigningPrivateKey.GetAsPEM` | src/common/keypair.cpp:556-568 | saves a valid key as the PEM text of its container, if it fits |
| `KeyPair.SigningPrivateKey.ParsePEM` | src/common/keypair.cpp:577-599 | loads the key of a text, or is left wiped |
| `KeyPair.KeyRoundTrip` | src/common/keypair.cpp:556-599 | a saved key is loaded again as the same key, whatever white space comes before the text or takes the place of its line breaks, and whatever comes after it |
| `KeyPair.PemRoundTrip` | src/common/keypair.cpp:253-278 | the bytes of a PEM text are decoded back, for every white space as line break |
| `KeyPair.AcceptedKeys` | src/common/keypair.cpp:577-599 | a text is accepted exactly when its body is a file of the format whose public key is derived from its private key |
| `VarInt.BytesAt` | src/steamnetworkingsockets/steamnetworkingsockets_internal.h:419-433 | byte k of an encoding holds the seven bits from 7 * k on, and whether more bytes follow |
| `VarInt.ExtentExactly` | src/steamnetworkingsockets/steamnetworkingsockets_internal.h:484-506 | a number ends with the first byte whose high bit is clear |
| `VarInt.MaxBytesIsLeast` | src/steamnetworkingsockets/steamnetworkingsockets_internal.h:484-506 | the limit of a width is the number of bytes that its numbers can take |
| `VarInt.SizesAreExact` | src/steamnetworkingsockets/steamnetworkingsockets_internal.h:456-482 | the size functions give the exact length, for 32 and 64 bits |
| `VarInt.SerializeVarInt` | src/steamnetworkingsockets/steamnetworkingsockets_internal.h:419-454 | writes those bytes in place and nothing else; the bounded writer fails exactly when they do not fit |
| `VarInt.DeserializeVarInt` | src/steamnetworkingsockets/steamnetworkingsockets_internal.h:484-506 | reads up to the first byte without the high bit within the limit of the width, and the value cut off at the width |
| `VarInt.RoundTrip` | src/steamnetworkingsockets/steamnetworkingsockets_internal.h:419-506 | reading what was written gives the number and uses exactly its bytes, whatever follows |
| `VarInt.ShortFormIsUnique` | src/steamnetworkingsockets/steamnetworkingsockets_internal.h:419-433 | no other encoding without a zero last byte exists |
| `TokenBucket.WindowBound` | src/steamnetworkingsockets/steamnetworking_statsutils.h:372-415 | between any two times a <= b of any run at most burst + rate * (b - a) / 1000000 tokens are granted |
| `TokenBucket.GrantedExactly` | src/steamnetworkingsockets/steamnetworking_statsutils.h:372-415 | a call is granted exactly when, for every earlier call, the tokens granted since and one more are at most the burst and what the rate added since |
| `TokenBucket.SteadyCallsPass` | src/steamnetworkingsockets/steamnetworking_statsutils.h:382-386 | calls a token's time apart are never refused |
| `TokenBucket.BurstIsGranted` | src/steamnetworkingsockets/steamnetworking_statsutils.h:387-407 | a full bucket grants its whole burst at once |
| `PingBuckets.PingTracker.ReceivedSample` | src/steamnetworkingsockets/steamnetworkingsockets_stats.cpp:84-158 | samples closer than 100 ms are merged by their minimum; the smoothed value is always that of the samples kept |
| `PingBuckets.SmoothIgnoresSpikes` | src/steamnetworkingsockets/steamnetworkingsockets_stats.cpp:144-156 | with three samples it is the mean of the best two, rounded down |
| `PingBuckets.SmoothOfFew` | src/steamnetworkingsockets/steamnetworkingsockets_stats.cpp:124-143 | with one or two it is the best of them, and -1 without any |
| `PingBuckets.PingTracker.ReceivedPing` | src/steamnetworkingsockets/steamnetworking_statsutils.h:256-302 | puts the sample, or the ping override in effect, into the current or the next bucket of the ring |
| `PingBuckets.PingTracker.SetPingOverride` | src/steamnetworkingsockets/steamnetworking_statsutils.h:301-318 | an override replaces the smoothed value, the samples kept and the range of the current bucket |
| `PingBuckets.NewEndIsApart` | src/steamnetworkingsockets/steamnetworking_statsutils.h:285-296 | consecutive bucket ends are at least a width apart, a new bucket covers its sample, and it continues the last one exactly within half a width of its end |
| `PingBuckets.CountIsNumber` | src/steamnetworkingsockets/steamnetworking_statsutils.h:322-346 | the number of valid buckets is that of the places that end no earlier than (N-1)*W ago |
| `PingBuckets.OverwrittenIsOld` | src/steamnetworkingsockets/steamnetworking_statsutils.h:276-302 | an overwritten bucket is never strictly recent |
| `PingBuckets.PutKeepsInv` | src/steamnetworkingsockets/steamnetworking_statsutils.h:256-302 | each bucket keeps the exact count and range of its samples, and a sample is forgotten only when older than the span |
| `PingBuckets.PingTracker.GetPingRange` | src/steamnetworkingsockets/steamnetworking_statsutils.h:322-346 | the extremes of the smoothed value and the recent buckets, and how many those are; without an override it covers every ping received within (N-1)*W |
| `PingBuckets.RunIsCovered` | src/steamnetworkingsockets/steamnetworking_statsutils.h:243-346 | in every run the range covers every ping no older than (N-1)*W |
| `PingBuckets.RangeIsRecent` | src/steamnetworkingsockets/steamnetworking_statsutils.h:322-346 | its ends are the smoothed value or pings no older than N*W |
| `PingBuckets.AssertionsHold` | src/steamnetworkingsockets/steamnetworking_statsutils.h:333-337 | the three bucket assertions hold exactly when the threshold is past zero or every bucket was used |
| `LinkThink.LinkStatsTracker.NeedToSendPingImmediate` | src/steamnetworkingsockets/steamnetworking_statsutils.h:934-946 | an active link with timed-out replies pings every 200 ms |
| `LinkThink.LinkStatsTracker.NeedToSendKeepAlive` | src/steamnetworkingsockets/steamnetworking_statsutils.h:948-979 | due 10 s or 60 s after the last packet, unless a reply is awaited |
| `LinkThink.LinkStatsTracker.GetSendStatsReason` | src/steamnetworkingsockets/steamnetworkingsockets_stats.cpp:579-616 | which stats are due, and the earliest time to look again after timers were reset |
| `LinkThink.LinkStatsTracker.GetSendReasonOrUpdateNextThinkTime` | src/steamnetworkingsockets/steamnetworking_statsutils.h:1114-1157 | the reason to send, and otherwise the least of all deadlines |
| `LinkThink.LinkStatsTracker.GetNextThinkTime` | src/steamnetworkingsockets/steamnetworking_statsutils.h:1250-1257 | as soon as possible when something is due, else that deadline |
| `LinkThink.ReasonExactly` | src/steamnetworkingsockets/steamnetworking_statsutils.h:934-1157 | when each reason is given, from the fields alone: urgent ping, keepalive, instantaneous stats, lifetime stats, and that nothing is sent otherwise |
| `LinkThink.AskedExactly` | src/steamnetworkingsockets/steamnetworkingsockets_stats.cpp:579-616 | which timers asking resets: exactly those of stats that are due and have nothing to tell |
| `LinkThink.RepliesAreWatched` | src/steamnetworkingsockets/steamnetworking_statsutils.h:1114-1157 | the time to ask again is no later than the timeout of a reply that is awaited |
| `LinkThink.NextThinkIsDue` | src/steamnetworkingsockets/steamnetworking_statsutils.h:1114-1157 | at the time to ask again a reply times out, a reason to send is given or a timer is reset, unless the caller wanted to be back by then anyway |
| `LinkThink.NothingBeforeNextThink` | src/steamnetworkingsockets/steamnetworking_statsutils.h:1114-1157 | after "nothing to send until t", asking again before t reports nothing, gives t again and changes nothing |
| `LinkThink.NeverOnlyDisconnected` | src/steamnetworkingsockets/steamnetworking_statsutils.h:1250-1257 | t is "never" exactly for a disconnected link |
| `LinkThink.NextThinkIsAhead` | src/steamnetworkingsockets/steamnetworking_statsutils.h:1114-1157 | t lies ahead exactly unless a reply is overdue |
| `HeapOrder.HeadIsLeast` | src/steamnetworkingsockets/steamnetworkingsockets_thinker.cpp:175-183 | the head of a heap is the least |
| `ThinkerQueue.Thinkers.RevaluateElement` | src/steamnetworkingsockets/steamnetworkingsockets_thinker.cpp:146-158 | restores a heap one of whose keys changed; every element knows its new place |
| `ThinkerQueue.Thinkers.Insert` | src/steamnetworkingsockets/steamnetworkingsockets_thinker.cpp:139-145 | adds one element |
| `ThinkerQueue.Thinkers.RemoveAt` | src/steamnetworkingsockets/steamnetworkingsockets_thinker.cpp:120-132 | takes out one element |
| `ThinkerQueue.Thinkers.InternalSetNextThinkTime` | src/steamnetworkingsockets/steamnetworkingsockets_thinker.cpp:105-173 | changes one think time, keeps "queued exactly when scheduled", and sends a wake exactly when the new time is before the old head |
| `ThinkerQueue.Thinkers.InternalEnsureMinThinkTime` | src/steamnetworkingsockets/steamnetworkingsockets_thinker.cpp:71-77 | the same, only if the time is earlier |
| `ThinkerQueue.Thinkers.SetNextThinkTime` | src/steamnetworkingsockets/steamnetworkingsockets_thinker.cpp:79-96 | does nothing when the time is already set |
| `ThinkerQueue.Thinkers.GetNextScheduledThinkTime` | src/steamnetworkingsockets/steamnetworkingsockets_thinker.cpp:175-183 | the earliest think time of all |
| `ThinkerQueue.Thinkers.ProcessThinkers` | src/steamnetworkingsockets/steamnetworkingsockets_thinker.cpp:185-261 | every action takes an earliest thinker that is strictly past; at most 10000 actions; otherwise no think time is left before the last clock reading, whatever callbacks do |
| `ThinkerService.TimeAfter` | src/steamnetworkingsockets/steamnetworkingsockets_thinker.cpp:185-261 | in every round of service, the time of a thinker that no callback reschedules: as it was until it is taken, then never if it ran and 1 ms after the attempt if its lock was not free |
| `ThinkerService.RunsAtMostOnce` | src/steamnetworkingsockets/steamnetworkingsockets_thinker.cpp:185-261 | such a thinker runs at most once in a round; each time it is taken before that it is put off, and more than 1 ms passes |
| `ThinkerService.DueIsServed` | src/steamnetworkingsockets/steamnetworkingsockets_thinker.cpp:185-261 | a round that is not cut short takes every such thinker whose time is past, and runs it unless it was put off to a time not yet past |
| `ThinkerService.EarlierIsFirst` | src/steamnetworkingsockets/steamnetworkingsockets_thinker.cpp:185-261 | of two such thinkers the one with the earlier time is taken first |
| `ThinkerThreads.NoLostWakes` | src/steamnetworkingsockets/steamnetworkingsockets_thinker.cpp:135-183 | under all interleavings a waiter was woken or planned no later than any schedule |
| `ThinkerThreads.EnsureMinIsReached` | src/steamnetworkingsockets/steamnetworkingsockets_thinker.cpp:98-103 | a finished EnsureMinThinkTime(t) has an instant with the schedule at most t, exactly when t > 0 |
| `ThinkerThreads.EnsureMinNeverLater` | src/steamnetworkingsockets/steamnetworkingsockets_thinker.cpp:71-118 | after every run, the step in which a pending EnsureMinThinkTime(t) gets the lock moves no schedule later, exactly when t > 0 or 2 ms from now is early enough |
| `ThinkerThreads.Replay` | src/steamnetworkingsockets/steamnetworkingsockets_thinker.cpp:71-183 | under all interleavings the table has the schedule of the run, a thinker is queued exactly when it is scheduled, and the wakes sent are those of the run |
| `ThinkerThreads.EnsureMinZeroExample` | src/steamnetworkingsockets/steamnetworkingsockets_thinker.cpp:98-118 | a run in which a request for time 0 moves a schedule later and never reaches its target |
| `ThinkerThreads.WakesAtTheHead` | src/steamnetworkingsockets/steamnetworkingsockets_thinker.cpp:170-171 | the table and the interleaving model agree on when a wake is sent |

## Left out

- Integer overflow: counters and times are unbounded; 16-bit wire numbers, 32-bit scopes and the widths of variable-length integers are modelled.
- Floating point: rates, percentages and the token bucket are over real numbers, so rounding is not captured.
- Packet statistics that do not feed the laws proved: jitter, debug history, packet and byte rates, out-of-order correction by the reorder window.
- CertStore: reading certificates from base64, error texts and printing; the signer graph with cycles is covered for soundness, not for a definition of what cyclic keys should get.
- CertScope.Setup: `std::sort` is an insertion sort, and the binary search of `HasItem` is membership.
- Ipv6Parser.ParseIPv6Addr: what the output bytes hold after a failure is not stated.
- Base64.MaxOutputIsExact: for line breaks of fewer than 2^29 characters, and texts of less than 4 GB.
- Base64.Base64Encode: what the buffer holds after a failure, and the query for the size alone, which returns `MaxOutput`.
- OpenSsh.ParserIsExact: block lengths from 2^31 on are treated as failures; the source casts them to a signed type before comparing.
- KeyPair: wiping memory, public keys and their authorized_keys text, other key types.
- Pem.ParsePEMHeaderOrFooter: white space is that of the C locale, and the expected words hold no terminator.
- PingBuckets.RunIsCovered: once a ping override has been in effect the current bucket no longer stands for pings received, so ranges are not covered then.
- LinkThink.LinkStatsTracker.GetSendReasonOrUpdateNextThinkTime: the kind of reply asked for follows from the reason and is not a separate result; a think time returned together with a reason is only bounded.
- ThinkerQueue.Thinkers.ProcessThinkers: what other threads do during a callback is a list of updates; updates by other threads between an iteration's last unlock and the next are part of that list.
- ThinkerQueue: thinkers are numbers, and the fields of a thinker are entries of maps; destruction is clearing its time.
- ThinkerThreads.EnsureMinIsReached: a lockless read is one step; torn reads are not modelled.
- Not modelled at all: sockets and the service thread, the SNP message layer, P2P and ICE, encryption, protobuf messages, SteamID and identity texts, hex encoding.
