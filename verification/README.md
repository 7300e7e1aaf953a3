# A verified model of BoringSSL's protocols, name constraints, revocation decisions and codecs

The project models, in Dafny, the parts of BoringSSL whose correctness is hardest to read off
the code, and proves what those parts promise.

* **Shared-memory protocols** (`RefCount.dfy`, `ExData.dfy`, `ThreadLocals.dfy`). Each is a step
  machine: a state holds the shared memory and every thread's control point and locals, a step is
  one access to shared memory, and a run is any sequence of events. An event that is not enabled
  leaves the state alone, so a theorem about all event sequences is a theorem about all
  interleavings, weak compare-and-exchange failures included. `ExDataSlots.dfy` has the
  per-object value table.
* **Name constraints** (`DnsNames.dfy`, `Netmask.dfy`, `GeneralNames.dfy`, `NameConstraints.dfy`),
  section 4.2.1.10 of RFC 5280: the matchers, the address masks, the parser and the whole-certificate
  decision with its work limit.
* **Revocation** (`Extensions.dfy`, `BitStrings.dfy`, `Ocsp.dfy`, `Crl.dfy`): sections 3.2 and 4.2
  of RFC 6960 and sections 5.1.2.6, 5.3 and 6.3.3 of RFC 5280.
* **Codecs** (`DerCursor.dfy`, `DerIntegers.dfy`, `DerTimes.dfy`, `NamePrinter.dfy`,
  `NameParser.dfy`): the DER cursor, unsigned INTEGER (section 8.3.2 of ITU-T X.690), both time
  forms in both directions, and the RFC 2253 name printer with a reader for what it prints.
* **Helpers** (`Allocator.dfy`, `ModExp.dfy`): the size-prefixed allocator over a flat memory, and
  square-and-multiply exponentiation.

Loops and objects of the source are methods and classes, proved against specification functions
or predicates; what the source promises is then proved of those.

## How the outside world enters

* The DER element reader (`CBS_get_any_asn1_element`) is any function that returns a non-empty
  prefix of its input (`DerCursor.Reader`). Where the order of list entries is at stake the element's
  end must depend only on the element's own bytes (`DerCursor.SelfDelimiting`).
* Hashes, signature verification, name normalisation and comparison, certificate parsing, the date
  window test, OID text and the UCS string converters are function-valued parameters.
* Which memory allocations, mutex operations and weak exchanges fail is part of the event or an
  argument, so every failure pattern is covered. The address at which the C library serves a
  request is an argument too.
* `size_t` is 64 bits wide and the size prefix is stored least significant octet first.

## Where the code differs from what is said about it

* `crypto/ex_data.cc:118` asserts a bound one below what the guard at line 53 lets through. A run
  takes a snapshot that violates it (`ExData.AssertionFails`), and a traversal does so exactly when
  the index INT_MAX has been given out before (`ExData.AssertionBound`). Every returned index still fits in
  `int` (`ExData.IndicesConsecutive`).
* `pki/name_constraints.cc:652-655` says that a wildcard name is permitted when all its expansions
  are. A constraint that is itself spelt `*.domain` breaks this in both directions
  (`DnsNames.WildcardConstraintDisagrees`). `DnsNames.WildcardAgreesIff` says exactly when the two agree,
  and `DnsNames.WildcardExact` describes all expansions by the constraints not spelt like the wildcard.
* A value handed to `CRYPTO_set_thread_local` is lost, not destroyed, when a later call overwrites it
  or when the mutex fails at thread exit (`ThreadLocals.LostWhenOverwritten`, `ThreadLocals.LostWhenLockFails`).
  `ThreadLocals.DestroyedExactlyOnce` gives the exact condition.
* `mod_exp` returns 1 instead of 0 for modulus -1 and exponent 0, and only there (`ModExp.ModExp`).
* After a single response that fails to parse, the OCSP details depend on the order of the list, while
  the status never does. `Ocsp.DetailsIgnoreOrderIff` says when exactly.
* A name whose last RDN is empty prints like the name without it (`NamePrinter.EmptyRdnVanishes`), and
  this is the only ambiguity (`NamePrinter.PrintedAlikeIff`). The parser never produces an empty RDN
  (`NameParser.ParsedNonEmpty`).
* The trailing-data test for a directoryName looks at the outer parser (`pki/general_names.cc:144-145`);
  the model does what the code does.

## Model

| member | source | states |
|---|---|---|
| `RefCount.CountIsReferences` | crypto/refcount.cc:30-59 | in every run by threads that only touch the count while holding a reference, the word is the number of outstanding references or is stuck at its maximum, and `abort` is never reached |
| `RefCount.SaturationIsPermanent` | crypto/refcount.cc:34-50 | once the word is at its maximum, no continuation of the run changes it |
| `RefCount.FreedOnceWhenUnreferenced` | crypto/refcount.cc:42-59 | at most one decrement returns 1; one has exactly when no reference is left and the word is not saturated, and then no thread is inside either function |
| `RefCount.FreedIsFinal` | crypto/refcount.cc:55 | after that 1 no event changes anything |
| `RefCount.FailuresAreOthersSuccesses` | crypto/refcount.cc:36-57 | exchanges a thread loses to a changed word never outnumber the exchanges other threads win |
| `RefCount.Linearizable` | crypto/refcount.cc:30-59 | the word and the 1s returned are those of the completed calls run atomically, in completion order |
| `ExData.NoDataRace` | crypto/ex_data.cc:36-134 | in no interleaving may a thread write a non-atomic location that another thread's next step reads or writes; readers touch only the head and links of counted nodes and never follow NULL |
| `ExData.PublishedIsStable` | crypto/ex_data.cc:59-69 | in every continuation of a run a counted entry keeps its position and contents |
| `ExData.TraversalExact` | crypto/ex_data.cc:116-130 | every finished traversal made exactly the calls of the first n entries, n being its snapshot; every index fits in `int` and every callback gets the object's value at its index |
| `ExData.CallsInOrder` | crypto/ex_data.cc:123-129 | these calls carry strictly increasing indices, each that of its own entry plus the reserved count, with the object's value there |
| `ExData.CallsComplete` | crypto/ex_data.cc:123-129 | no non-null callback among those entries is missed |
| `ExData.CallbackGetsLastSet` | crypto/ex_data.cc:124-128 | each free callback is handed the value last stored under its index, whatever sets came before |
| `ExData.IndicesConsecutive` | crypto/ex_data.cc:51-71 | the k-th registration to return gets index k plus the reserved count, within `int`, and its node is the k-th of the list |
| `ExData.CountReachable` | crypto/ex_data.cc:53-69 | every count up to the guard's bound is reached by some run |
| `ExData.AssertionBound` | crypto/ex_data.cc:116-118 | a traversal's snapshot violates the assertion exactly when the index INT_MAX has been given out; with the lock free, when some call has returned it |
| `ExData.AssertionFails` | crypto/ex_data.cc:116-118 | a run whose last event is a traversal taking such a snapshot |
| `ExDataSlots.ExDataValues.constructor` | crypto/ex_data.cc:107 | a new object holds no values |
| `ExDataSlots.ExDataValues.Set` | crypto/ex_data.cc:74-98 | aborts exactly on a negative index and stores exactly when the memory suffices; then only the last value set under that index changes, otherwise none does |
| `ExDataSlots.ExDataValues.Get` | crypto/ex_data.cc:100-105 | answers with the value last stored under the index by the calls so far, and with NULL before that |
| `ExDataSlots.GetsLastSet` | crypto/ex_data.cc:74-105 | after any calls, failing and aborted ones included, the stack holds under each index the value of its last successful set, or reads as NULL |
| `ThreadLocals.DestroyedExactlyOnce` | crypto/thread_pthread.cc:69-149 | no value is destroyed twice; after its thread's exit it was destroyed exactly once if and only if its set returned 0, or it was not overwritten and the exit-time lock succeeded |
| `ThreadLocals.GetReturnsLastSet` | crypto/thread_pthread.cc:101-149 | a live thread reads back the value of its last set of that index that returned 1, or NULL |
| `ThreadLocals.TableIsExclusive` | crypto/thread_pthread.cc:75-145 | no two threads are between lock and unlock |
| `ThreadLocals.DestroyedByItsIndex` | crypto/thread_pthread.cc:74-87 | whatever destroys a value was registered for the value's index |
| `ThreadLocals.DestroyedByOwnDestructor` | crypto/thread_pthread.cc:74-149 | a value whose set returned 0 is destroyed by the destructor of that call; any other by its own whenever all calls for its index give the same one |
| `ThreadLocals.LostWhenOverwritten` | crypto/thread_pthread.cc:144-148 | a run in which a thread ends normally and its first value, overwritten by a second set, was never destroyed |
| `ThreadLocals.LostWhenLockFails` | crypto/thread_pthread.cc:75-77 | a run in which a thread ends with its value never destroyed because the lock at exit failed |
| `DnsNames.IsPermittedDNSName` | pki/name_constraints.cc:635-661 | true exactly when no excluded constraint matches partially and, if DNS subtrees are permitted, one of them matches fully; at most one comparison per constraint |
| `DnsNames.FullMatchIsLabelSuffix` | pki/name_constraints.cc:57-113 | after one trailing dot is dropped on each side, full matching is case-insensitive label-suffix matching, proper for a constraint with a leading dot |
| `DnsNames.ExcludedIffSomeExpansion` | pki/name_constraints.cc:636-643 | partial matching of a wildcard, up to a constraint spelt like it, means that some expansion matches |
| `DnsNames.PermittedIffEveryExpansion` | pki/name_constraints.cc:651-658 | one constraint not spelt like the wildcard matches it exactly when every expansion is matched by some constraint |
| `DnsNames.WildcardExact` | pki/name_constraints.cc:635-661 | for all lists and domains, every expansion is permitted exactly when the wildcard is under the constraints not spelt like it |
| `DnsNames.WildcardAgreesIff` | pki/name_constraints.cc:635-661 | the wildcard is permitted exactly if all its expansions are, if and only if: with the wildcard itself excluded, the expansions are refused by another constraint; without, some other constraint decides or the wildcard itself is not permitted |
| `DnsNames.WildcardConstraintDisagrees` | pki/name_constraints.cc:652-655 | with such a constraint the wildcard and its expansions are decided oppositely, permitted or excluded |
| `Netmask.IsValidNetmask` | pki/ip_util.cc:9-34 | accepts exactly the IPv4 and IPv6 sized masks that are ones followed by zeros |
| `Netmask.OnesTest` | pki/ip_util.cc:17-22 | the complement-and-increment test is exactly "ones then zeros" in an octet |
| `Netmask.IPAddressMatchesWithNetmask` | pki/ip_util.cc:36-47 | true exactly when the sizes agree and every masked octet does |
| `Netmask.MatchIsPrefix` | pki/ip_util.cc:36-47 | under a mask of k ones, matching means that the first k bits agree |
| `Netmask.RangesNestedOrDisjoint` | pki/ip_util.cc:36-47 | two ranges of one size are nested or share no address |
| `GeneralNames.GeneralNames.ParseGeneralName` | pki/general_names.cc:98-217 | adds exactly the parsed name and its type bit, or fails and changes nothing |
| `GeneralNames.RunKeeps` | pki/general_names.cc:98-217 | after any calls, failing ones included, a type bit is set exactly when a list of that type is non-empty, and every stored range has a valid mask |
| `GeneralNames.StoredRanges` | pki/general_names.cc:180-204 | every stored range is a bit-prefix range and any two of one size are nested or disjoint |
| `GeneralNames.CreateFromValue` | pki/general_names.cc:68-96 | succeeds exactly on a non-empty body all of whose elements are names, and then holds those in order |
| `GeneralNames.ParseGeneralSubtrees` | pki/name_constraints.cc:121-174 | the same for subtrees, each alone in its SEQUENCE |
| `GeneralNames.AddAllTypes` | pki/general_names.cc:68-96 | the type bits of a parsed list describe its contents |
| `NameConstraints.MailMatchMeaning` | pki/name_constraints.cc:218-274 | the mailbox matcher is one mailbox, strict subdomains, or one host; a malformed constraint permits nothing and excludes everything |
| `NameConstraints.IsPermittedRfc822Name` | pki/name_constraints.cc:529-633 | true exactly for well-formed mailboxes matched by no excluded and, if constrained, by some permitted subtree |
| `NameConstraints.IsPermittedDirectoryName` | pki/name_constraints.cc:663-684 | the same for directory names |
| `NameConstraints.IsPermittedIP` | pki/name_constraints.cc:686-708 | the same for addresses |
| `NameConstraints.GuardExact` | pki/name_constraints.cc:400-406 | in wrapping 64-bit arithmetic the guard passes exactly when the true product is at most 2^20 |
| `NameConstraints.CheckSan` | pki/name_constraints.cc:451-480 | the subjectAltName loops accept exactly when every entry passes, within names times constraints comparisons |
| `NameConstraints.IsPermittedCert` | pki/name_constraints.cc:365-527 | reports no error exactly when the order-free decision accepts, and the subjectAltName loops make at most 2^20 comparisons |
| `NameConstraints.ExcludingMoreAcceptsLess` | pki/name_constraints.cc:365-527 | acceptance is antitone in the excluded subtrees |
| `NameConstraints.ExcludedSubtreeNeverAdmits` | pki/name_constraints.cc:335-348 | one more parsed excluded subtree, critical or not, never turns refusal into acceptance |
| `NameConstraints.CriticalOnlyTightens` | pki/name_constraints.cc:331-348 | marking the extension critical only refuses more |
| `NameConstraints.DroppingNamesKeepsAcceptance` | pki/name_constraints.cc:365-480 | dropping subjectAltName entries keeps an accepted certificate accepted |
| `NameConstraints.NameConstraints.Parse` | pki/name_constraints.cc:303-363 | succeeds exactly on a lone SEQUENCE of one or both subtree fields and stores what they stand for |
| `NameConstraints.ParsedTypes` | pki/name_constraints.cc:331-348 | a type is constrained exactly when a subtree of it is listed, unsupported types only when critical |
| `DerCursor.Parser.constructor` | pki/parser.cc:14 | a cursor starts at the beginning of its input |
| `DerCursor.Parser.PeekTagAndValue` | pki/parser.cc:16-29 | reports the element at the front without moving and remembers its length |
| `DerCursor.Parser.Advance` | pki/parser.cc:31-38 | moves past a peeked element, and fails when nothing was peeked |
| `DerCursor.Parser.ReadRawTLV` | pki/parser.cc:42-49 | cuts off a non-empty element; it and the rest make up the old input |
| `DerCursor.Parser.ReadTagAndValue` | pki/parser.cc:51-57 | the internal check after peeking never fails |
| `DerCursor.Parser.ReadOptionalTag` | pki/parser.cc:59-77 | succeeds without a value at the end and on another tag, and then does not move |
| `DerCursor.Parser.ReadTag` | pki/parser.cc:94-103 | reads an element of the wanted tag or does not move |
| `DerCursor.Parser.ReadSequence` | pki/parser.cc:112-126 | a fresh cursor over the contents of a SEQUENCE |
| `DerCursor.ReadAllElements` | pki/ocsp.cc:334-341 | a HasMore loop terminates, and when it succeeds the elements read make up the body |
| `DerCursor.ElementsConserve` | pki/parser.cc:40-49 | the elements concatenate to the body, and no other cutting agrees with the reader |
| `DerIntegers.ParseUint64` | pki/parse_values.cc:181-203 | the shift loop in 64-bit arithmetic returns the big-endian value without losing a bit, or rejects |
| `DerIntegers.ShiftFits` | pki/parse_values.cc:195-200 | before each shift at most 56 bits are in use |
| `DerIntegers.LengthIsRange` | pki/parse_values.cc:138-149 | for valid non-negative contents the length test is the test for 2^64 |
| `DerIntegers.MinimalIsEncode` | pki/parse_values.cc:165-179 | the accepted form of a number is its only shortest two's complement encoding |
| `DerIntegers.ParseUint64Exact` | pki/parse_values.cc:181-203 | accepts exactly the minimal encodings of 0 to 2^64 - 1, of any length, and returns the number |
| `DerIntegers.ParseUint64Injective` | pki/parse_values.cc:181-203 | two accepted inputs with one value are equal |
| `BitStrings.AssertsUsedBit` | pki/parse_values.cc:228-248 | on parsed contents ignoring the unused-bit count is sound: a bit is asserted exactly when it is a used one bit |
| `BitStrings.UnusedClear` | pki/parse_values.cc:271-289 | parsing leaves no unused bit set |
| `BitStrings.ParseBitStringInjective` | pki/parse_values.cc:250-293 | two accepted inputs with the same bits are equal |
| `DerTimes.ByteReader.ReadByte` | pki/input.cc:18-25 | takes one octet off the front |
| `DerTimes.ByteReader.ReadDecimal` | pki/parse_values.cc:49-64 | reads exactly the given number of digits and never wraps for the widths in use |
| `DerTimes.ValidateGeneralizedTime` | pki/parse_values.cc:72-127 | the branches accept exactly the dates of the calendar with a time of day, second 60 included |
| `DerTimes.CalendarIsGregorian` | pki/parse_values.cc:90-122 | the month lengths add up to the Gregorian count of days over any number of years |
| `DerTimes.ParseGeneralizedTime` | pki/parse_values.cc:344-364 | accepts exactly fourteen digits and Z that form a valid time |
| `DerTimes.ParseUTCTime` | pki/parse_values.cc:317-342 | accepts exactly twelve digits and Z, with the year window from 1950 to 2049 |
| `DerTimes.WriteFourDigit` | pki/encode_values.cc:16-28 | writes the four digits in place, or refuses 10000 and above and writes nothing; all other octets are kept |
| `DerTimes.WriteTwoDigit` | pki/encode_values.cc:30-37 | writes the two digits in place, or refuses 100 and above and writes nothing; all other octets are kept |
| `DerTimes.EncodeGeneralizedTime` | pki/encode_values.cc:74-85 | fills the buffer with the encoding exactly when all fields fit |
| `DerTimes.EncodeUTCTime` | pki/encode_values.cc:87-106 | the same for UTCTime, within its range of years |
| `DerTimes.GeneralizedTimeRoundTrip` | pki/parse_values.cc:344-364 | bytes parse to a time exactly when the time is valid and encodes to those bytes |
| `DerTimes.UTCTimeRoundTrip` | pki/parse_values.cc:317-342 | the same for UTCTime |
| `DerTimes.InputLess` | pki/input.h:131-147 | the pointer loop is the lexicographic order |
| `DerTimes.OrderPreserved` | pki/parse_values.cc:299-303 | field-wise order of encodable times is lexicographic order of their encodings |
| `NamePrinter.EscapeValue` | pki/parse_name.cc:117-136 | the loop writes every octet by its position and kind, and reports non-printable octets |
| `NamePrinter.AsRFC2253String` | pki/parse_name.cc:81-147 | prints label and text, or label and raw contents in hexadecimal, or fails |
| `NamePrinter.ConvertToRFC2253` | pki/parse_name.cc:208-232 | joins the printed RDNs last first; fails exactly when some attribute cannot be printed |
| `NamePrinter.HexRoundTrip` | pki/parse_name.cc:108 | hexadecimal decodes to the octets it was made from |
| `NamePrinter.UnescapeEscape` | pki/parse_name.cc:117-136 | unescaping the written text gives back the octets |
| `NamePrinter.ValueRoundTrip` | pki/parse_name.cc:117-147 | a printed value reads back; a leading unescaped '#' always and only means hexadecimal |
| `NamePrinter.NameRoundTrip` | pki/parse_name.cc:208-232 | splitting at unescaped separators and unescaping recovers the name without the empty RDNs it prints first, so the whole name exactly when it prints no empty RDN first |
| `NamePrinter.EmptyRdnVanishes` | pki/parse_name.cc:224-227 | an empty RDN printed first leaves no trace in the output |
| `NamePrinter.PrintedAlikeIff` | pki/parse_name.cc:208-232 | two names print alike exactly when they differ in nothing but empty RDNs printed first |
| `NamePrinter.PrintingLosesNothing` | pki/parse_name.cc:81-232 | from a printed name one recovers, in reverse RDN order, every label and exact text or raw contents |
| `NamePrinter.KeyNamesType` | pki/parse_name.cc:81-107 | the printed key determines the attribute type, if OID text names at most one OID |
| `NameParser.ReadRdn` | pki/parse_name.cc:149-180 | reads a non-empty list of complete type and value pairs, or fails |
| `NameParser.ParseNameValue` | pki/parse_name.cc:191-206 | reads a whole body of such SETs, or fails |
| `NameParser.ParsedNonEmpty` | pki/parse_name.cc:177-179 | every parsed RDN is non-empty |
| `NameParser.PrintedAlikeShowAlike` | pki/parse_name.cc:81-232 | two parsed names that print alike show the same labels and values in the same order |
| `Extensions.ParseExtensions` | pki/parse_certificate.cc:662-709 | collects the elements of a lone non-empty SEQUENCE, or fails |
| `Extensions.CollectedExact` | pki/parse_certificate.cc:681-700 | accepted exactly when every element parses and no OID repeats; the map holds exactly those extensions |
| `Extensions.ConsumeExtension` | pki/parse_certificate.cc:711-723 | removes and returns the extension, if present |
| `Extensions.FindUnhandledCritical` | pki/ocsp.cc:783-795 | true exactly when some critical extension is not among those handled |
| `Ocsp.CheckExtensions` | pki/ocsp.cc:767-798 | distinguishes unparsable from unhandled critical extensions |
| `Ocsp.GetRevocationStatusForCert` | pki/ocsp.cc:801-864 | status and details are those of the whole list: UNKNOWN at a bad response, otherwise the strictest fresh matching status |
| `Ocsp.StatusIsMaximum` | pki/ocsp.cc:853-861 | the status is the maximum under REVOKED > UNKNOWN > GOOD of the fresh matching responses, UNKNOWN without any |
| `Ocsp.BadMeansUnknown` | pki/ocsp.cc:818-832 | a bad response anywhere makes the status UNKNOWN |
| `Ocsp.StatusIgnoresOrder` | pki/ocsp.cc:801-864 | reordering the encoded responses never changes the status |
| `Ocsp.DetailsIgnoreOrderIff` | pki/ocsp.cc:807-861 | the details are the same for every order of the encoded responses exactly when all bad ones carry one error and one without an error stands beside no matching response |
| `Ocsp.BearingsReordered` | pki/ocsp.cc:809-835 | reordering the encoded responses reorders what they say of the certificate |
| `Ocsp.BearingsHaveRealErrors` | pki/ocsp.cc:767-798 | the only errors a single response can carry are unparsable and unhandled critical extensions |
| `Ocsp.VerifyAuthorizedResponderCert` | pki/ocsp.cc:646-674 | true exactly for a certificate signed by the issuer with the OCSP signing purpose |
| `Ocsp.VerifyOCSPResponseSignature` | pki/ocsp.cc:687-738 | true exactly when the issuer or a listed delegate matches the responder ID and signed |
| `Ocsp.CheckOCSP` | pki/ocsp.cc:866-964 | the first failing gate decides the details; past the gates the status is the list's if properly signed, else UNKNOWN |
| `Ocsp.AnswersAreSigned` | pki/ocsp.cc:943-963 | REVOKED exactly when properly signed, nothing bad and a fresh match says so; GOOD exactly when properly signed, nothing bad, there is a fresh match and all say GOOD |
| `Crl.ReadUTCOrGeneralizedTime` | pki/parse_certificate.cc:292-310 | reads one element and succeeds exactly on a valid time of either form |
| `Crl.ReadEntry` | pki/crl.cc:345-387 | yields the serial exactly when the entry is well formed, has no critical extension, and no extensions under version 1 |
| `Crl.GetCRLStatusForCert` | pki/crl.cc:306-402 | GOOD without a list; UNKNOWN for an empty or malformed one or any bad entry; otherwise REVOKED exactly when a serial matches |
| `Crl.EntriesDecide` | pki/crl.cc:338-401 | a bad entry anywhere gives UNKNOWN, otherwise membership of the serial decides |
| `Crl.EntryOrderIrrelevant` | pki/crl.cc:338-401 | reordering the encoded entries never changes the status |
| `Crl.ContainsExactMatchingName` | pki/crl.cc:39-47 | true exactly when the two lists share an element |
| `Crl.SetIntersection` | pki/crl.cc:44-45 | merging two sorted lists yields only common elements, and some if there are any |
| `Crl.CheckScope` | pki/crl.cc:535-599 | the distribution point shares a URI where named, and the certificate is of the covered kind |
| `Crl.CheckExtensions` | pki/crl.cc:516-608 | the list's extensions parse, its scope covers the certificate, and nothing else is critical |
| `Crl.CheckCRL` | pki/crl.cc:407-671 | past the gates the list's status is returned exactly when some certificate above the target matches the issuer, may sign CRLs and verifies the signature; otherwise UNKNOWN |
| `ModExp.ModExp` | fuzz/bn_mod_exp.cc:28-58 | fails exactly for modulus 0; otherwise the remainder of the power, in range, except exactly for modulus -1 with exponent 0 |
| `ModExp.TurnKeeps` | fuzz/bn_mod_exp.cc:44-55 | one turn keeps r times base to the exponent, modulo m |
| `Allocator.Heap.constructor` | crypto/mem.cc:36 | an empty heap is well formed |
| `Allocator.Heap.Malloc` | crypto/mem.cc:182-216 | succeeds exactly when size + 8 does not wrap and the library serves it; a new block of that size with all others intact, or nothing changed |
| `Allocator.Heap.Zalloc` | crypto/mem.cc:218-224 | the same, and the block is zero |
| `Allocator.Heap.Calloc` | crypto/mem.cc:226-233 | the same for the true product, refused exactly when it would wrap |
| `Allocator.ProductWraps` | crypto/mem.cc:227 | the division test is exactly overflow of the product |
| `Allocator.Heap.Free` | crypto/mem.cc:235-262 | prefix and payload are zero when released, with the length they were obtained with, and no other byte changes |
| `Allocator.Heap.Realloc` | crypto/mem.cc:264-293 | keeps the first min(old, new) bytes, frees the old block zeroed, leaves other blocks intact; on failure nothing changes |
| `Allocator.RunKeeps` | crypto/mem.cc:182-293 | after any calls and client writes the live blocks are exactly those asked for and not given back, apart from each other, each with the size asked for in its prefix, and size + 8 does not wrap |
| `Allocator.AddRegion` | crypto/mem.cc:202-210 | storing the prefix keeps every live block's prefix and bytes, and the regions apart |
| `Allocator.WriteInside` | crypto/mem.cc:289 | a write inside a payload keeps every prefix and all other blocks |
| `Allocator.RemoveRegion` | crypto/mem.cc:248-260 | releasing a zeroed block keeps all others |

## Left out

* CPU feature detection, `crypto/crypto.cc`, constant-time word operations, byte swaps and rotations: single expressions or platform queries.
* CBS and CBB themselves, digests, signature verification, name normalisation and comparison, path building: they enter as parameters.
* The C++ memory model: shared accesses are sequentially consistent steps, and data races are excluded as properties of those steps.
* Destructors and free callbacks that call back into the library while they run.
* The C library and the pthread implementation, beyond what their failures do to the callers.
* `OPENSSL_memory_alloc` and its companions, malloc failure injection, address sanitizer poisoning, `OPENSSL_strlcpy` and `OPENSSL_strlcat`.
* Allocation failures inside big-number operations of `mod_exp`.
* Error queues and debug strings; only which call fails is modelled, except in OCSP where the details are a result.
* `ParseCrlCertificateList`, `ParseCrlTbsCertList`, `ParseIssuingDistributionPoint` and the OCSP structure parsers: straight-line reads, entering as parameters of the decisions that use them.
* Conversions between POSIX time and calendar time, the date window test, and string types other than those the printer needs.
* A comparison bound for certificates without a subjectAltName: the code does not count mailbox constraints there (`pki/name_constraints.cc:395-399`).
* PEM and file loading, OCSP request URLs, other fuzz harnesses, the Windows thread code and the stub thread API.
- Crl.CheckCRL: a distribution point's full name and the issuing distribution point are given by their URI lists, because only those are compared.
- Ocsp.CheckOCSP: a certificate's fields are those the decision reads, because parsing is a parameter.
- NameConstraints.IsPermittedCert: requires the counts of names and of constraints to fit in 64 bits, as they do for any certificate in memory.
- Crl.EntryOrderIrrelevant: requires a self-delimiting element reader, because otherwise moving bytes could move the boundaries of entries.
