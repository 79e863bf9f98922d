# vUberdns in Dafny

A model of vUberdns, an in-memory authoritative DNS server, and proofs about it. Four parts are
modelled, with the branches, limits and error cases of the C++ code.

**Replies.** `AnswerBase` appends resource records to a growing buffer and replaces the tail of a name
by a pointer to an earlier copy. `Compression.dfy` holds an independent reader of compressed names
(`NameAt`), which follows a pointer only to a strictly earlier run of labels and never looks at the 12
header octets or at an RDLENGTH field that is still to be patched (the "hole"). One lemma, `Frame`, says
that a name once readable reads the same after every kind of write there is. The index invariant, that
every indexed offset starts a complete name, rests on it, and is what `ReverseCompare` needs to terminate
and stay in bounds. `Messages.dfy` is a reader for whole messages. `DnsPlan.dfy` plans which records answer
a query before anything is written, `Response.dfy` keeps the buffer readable as the records stored so far,
and `DnsDaemon.dfy` proves that any datagram gets no reply, an error reply, or the longest front of the
plan that fits into 512 octets. What is planned and what is written are then said once more without these
functions: `AnswersByType.dfy` has the answers for each type, by its number and in the fields of the zone,
`PlannedSections.dfy` the other two sections, `RecordOctets.dfy` the octets of each kind of record, and
`ReplyOctets.dfy` those of the header and the reply codes.

**Questions.** `LabelHeader.dfy` models the parser of question names on arbitrary octets, pointers included.
`QuestionsAsked.dfy` compares the questions answered with those that the reader finds in the datagram.

**Zones.** A tree of zones stands for a map from label paths, top label first, to zone data (`ZoneTree.dfy`,
`ZoneMap.dfy`). `ZoneSections.dfy` states what searching, creating, updating and deleting does to that map,
and exactly when the code does something else; `ZoneMgrJson.dfy` is the class that does it, on a copy that
takes the place of the tree in force. `AuthorityFields.dfy` spells out, field by field, which entry has its
serial counted and what becomes of all others. `ParentPointers.dfy` stores the parents as addresses: which of them are
right after Init, an insertion and an erasure, and what is found by name then. `PointersInForce.dfy` carries
that over to the trees that creates and deletes commit, and `ParentWalks.dfy` to the walk for the SOA record.
`RestHandler.dfy` decides between create, update and merge; `ZoneRuns.dfy` interleaves any number of threads,
the mutex, and the reading that a patch does before it, and `PatchRuns.dfy` says what comes of that.
`ZoneMgrMemory.dfy` is the other store, with wildcards, and `ZoneServing.dfy` joins both stores to the name
server. `ZoneExamples.dfy`, `PatchExamples.dfy`, `PointerExamples.dfy` and `ServingExamples.dfy` have the
smallest trees and runs on which the json store surprises.

**Base64.** `Base64.dfy`, with accumulators in 32-bit two's complement.

## How to read the model

- Strings are sequences of octets. A pointer into the tree is a cursor, the list of positions that leads to
  a node; the parents of a node are the prefixes of its cursor, which is what the stored pointers say in a
  coherent tree (`ParentPointers.CoherentParent`). A shared pointer to the tree is an object of class
  `Container`.
- The reply buffer and its index of offsets are the fields of one object, `Reply`; the virtual `Write` of
  the record classes is a match on `Rdata`. The message header keeps its flags as one 16-bit word, and the
  masks of its setters are arithmetic on that word.
- Writing to disk is a parameter, `saves`: `Save` may fail, and does so before the tree is replaced.
- `Sound` trees have different labels on siblings, non-empty labels without dots, and no zone with both an
  alias and an address. Operations keep trees sound; a tree that is loaded is taken to be sound.
- `RecordRoom` and `Room` give the exact number of octets that records take, each compressed against the
  names before it.

## Where the code and its documentation disagree

The model follows the code.

- `DnsDaemonImpl.cpp:295-322` never reduces `bytes_left`, so with QDCOUNT above one the first question is
  read again each time. The questions answered are those asked just when all of them are the same
  (`QuestionsAsked.AnsweredAreAsked`); `QuestionsAsked.TwoNamesAskedOneAnswered` is a datagram where they are not.
- `LabelHeader.h:100,140-142` compares a pointer, in host byte order, with the address behind a length
  octet. In a first question every pointer is refused (`LabelHeaders.PointerLoops`), so every accepted
  question is plain.
- `LabelHeader.h:37-39` reads the octet at `end` before it is compared with `end`. The model demands one
  readable octet behind the datagram (`queryLen < |mem|`), which the fixed receive buffer provides for all
  datagrams that do not fill it.
- The limit of 255 counts label texts and one octet for the end, not the length octets of the labels
  (`LabelHeaders.RunAlongChain`).
- The two assertions at `AnswerBase.cpp:46-47` contradict each other; the intent, that either a name or a
  pointer owns a record, is the datatype `Owner`. Assertions are taken to have no effect.
- `ZoneMgr.h:46-51` promises that Update counts up the serial only when none is given. The code counts up
  every authority, so the SOA given is the SOA stored just when the zone given is no authority
  (`ZoneSections.GivenSoaIsKept`, and `ZoneExamples.GivenSerialIsCountedUp` for an input).
- `ZoneMgr.h:19-25` says that an empty label matches all names at its level unless there is a full match. The
  json store has no such wildcards (`ZoneSections.NoWildcards`). The memory store follows its documentation;
  it does not go back to the wildcard when a full match leads nowhere (`ZoneMgrMemories.MatchHidesWildcard`).
- When a match has no children, `Search` stays on its level (`ZoneMgrJson.cpp:61-68`). `LookupName` filters
  the outcome; `Update` and `Delete` do not (`ZoneSections.UpdateIsExact`, `ZoneSections.DeleteIsExact`), and
  PUT throws on it (`RestHandlers.PutDecision`). `ZoneExamples.UpdateOfAnotherZone`,
  `ZoneExamples.DeleteOfAnotherZone` and `ZoneExamples.PutOfMissingZoneThrows` are inputs. The name server does
  not filter either, and answers for a missing name from another zone (`ZoneServing.JsonQuestion`,
  `ServingExamples.MissingNameIsAnswered`).
- Inserting and erasing move siblings (`ZoneMgrJson.cpp:195,247`), and the pointers of their children stay
  behind until the next change copies the tree. What LookupName finds meanwhile is said by
  `PointersInForce.FoundAfterDelete` and `PointersInForce.FoundAfterCreate`, and whose SOA record is found by
  `ParentWalks.SoaAfterDelete` and `ParentWalks.SoaAfterCreate`. `ZoneExamples.DeleteHidesCousin`,
  `PointerExamples.CreateHidesCousin` and `PointerExamples.DeleteLosesSoa` are inputs.
- The json store leaves the authority flag off when nothing is found, so it never leads to NAME_ERROR
  (`ZoneServing.JsonNeverDenies`).
- PATCH reads the zone before the mutex is taken. `PatchRuns.PatchInRun` says when that makes no difference to
  a patch that commits. A patch whose zone was deleted in between can change another zone
  (`PatchExamples.PatchOfDeletedZone`), one whose zone was created in between is refused
  (`PatchRuns.PatchOfAppearedZone`), and the later of two undoes the earlier (`PatchRuns.LaterPatchUndoes`).
  The authority flag, which is on by default, is not merged (`RestHandlers.EmptyPatch`).
- A query for all types is answered with the alias and the text of a zone, never with its addresses
  (`DnsPlans.AllTypes`, and `ServingExamples.AddressIsWithheld` for an input).
- Replies keep the operation and reply code bits of the query: `DnsDaemons.DnsDaemon.ProcessQuestions` delivers the
  flags of the query with QR, AA, TC and RA set anew.

## Model

| member | source | states |
|---|---|---|
| DomainNames.ToFraments | src/dnslib/src/AnswerBase.cpp:263-280 | the fragments are the pieces between dots; a trailing dot adds no empty piece, a leading or double dot does |
| DomainNames.Split | src/dnslib/include/vudnslib/util.h:34-57 | the pieces between dots without the empty ones, in order, for every text |
| DomainNames.FragmentsOfJoin | src/dnslib/src/AnswerBase.cpp:263-280 | splitting undoes joining for every list of non-empty dot-free labels |
| DomainNames.JoinOfFragments | src/dnslib/src/AnswerBase.cpp:263-280 | joining undoes splitting exactly when the text does not end in a dot |
| DomainNames.KeyIsClean | src/dnslib/src/ZoneMgr.cpp:49-52 | every label of a key is non-empty and free of dots |
| DomainNames.KeyOfJoin | src/dnslib/include/vudnslib/util.h:34-57 | the key of printed clean labels is these labels |
| DomainNames.JoinUpToCase | src/dnslib/src/ZoneMgr.cpp:25 | printed labels agree up to case exactly when each label does |
| Bytes.IEqualsIs | src/dnslib/src/ZoneMgr.cpp:25 | texts are equal without regard to case exactly when each octet is the same or the other case of the same letter |
| DomainNames.DotsOfKey | src/dnslib/src/ZoneMgr.cpp:25 | a domain holds at least the dots that its key needs, and no others exactly when it is its printed key |
| DomainNames.KeyOfSameLength | src/dnslib/src/ZoneMgr.cpp:25 | a domain is its own printed key exactly when the two lengths agree |
| Compression.Frame | src/dnslib/include/vudnslib/AnswerBase.h:123-130 | a readable name, pointers included, reads the same after any growth of the buffer, any patch of the RDLENGTH field and any rewrite of the 12 header octets |
| Compression.ReadNamesAreLegal | src/dnslib/include/vudnslib/AnswerBase.h:123-130 | whatever name the reader finds has labels of 1 to 63 octets |
| Compression.ReadEncoded | src/dnslib/src/AnswerBase.cpp:134-139 | octets written label by label read back as those labels, followed by whatever comes next |
| Answers.UsableIs | src/dnslib/src/AnswerBase.cpp:170 | 0 <= currFrag < n holds for a stored name exactly when it shares its last label with the sought name and does not strictly extend it |
| Answers.ReverseCompare | src/dnslib/src/AnswerBase.cpp:193-232 | terminates and stays in bounds under the index invariant (run start, then distance to the end of the run); ends with the value that the longest common suffix determines, and the best offset decodes to exactly the fragments from there on |
| Answers.SearchForDomainName | src/dnslib/src/AnswerBase.cpp:154-191 | the smallest usable fragment index over all indexed names, early exit included, with an offset that decodes to the fragments from that index on; not found exactly when no indexed name is usable |
| Answers.ReadWritten | src/dnslib/src/AnswerBase.cpp:133-151 | appended octets read as the intended name if and only if every fragment is a legal label |
| Answers.WrittenSize | src/dnslib/src/AnswerBase.cpp:133-151 | a name that ends in a pointer is strictly shorter than its plain encoding |
| Answers.StillIndexed | src/dnslib/include/vudnslib/AnswerBase.h:80-97 | appending, patching RDLENGTH and overwriting the header keep the index invariant and every indexed name |
| Answers.BestIs | src/dnslib/src/AnswerBase.cpp:154-191 | the search through the index finds the best place among all known names, so the size of a name depends on the set of known names alone |
| Answers.Reply.Append | src/dnslib/src/AnswerBase.cpp:133-151 | octets at the end disturb no indexed name |
| Answers.WriteFragments | src/dnslib/src/AnswerBase.cpp:134-139 | one length octet, truncated to eight bits, and the text of each fragment |
| Answers.WriteName | src/dnslib/src/AnswerBase.cpp:122-152 | the name read at the write position is exactly the fragments if and only if they are legal labels; the size is the least the index allows, strictly below plain whenever a pointer is used; without one the octets appended are the plain encoding |
| Messages.ReadRecordIsLegal | src/dnslib/src/AnswerBase.cpp:42-85 | whatever octets read as a record, its owner and all names in its data have labels of 1 to 63 octets |
| Answers.AddLabelForCompression | src/dnslib/src/AnswerBase.cpp:103-120 | afterwards the index stands for the names it stood for before and for the name at this offset, and for no others |
| Answers.Qualify | src/dnslib/src/AnswerBase.cpp:89-96 | a relative name is continued with the labels of the zone upwards; an absolute or empty one is not |
| Answers.WriteDomainName | src/dnslib/src/AnswerBase.cpp:87-101 | in any buffer that satisfies the index invariant the name decoded at the write position, by following pointers, is exactly the fragments of the qualified name; the invariant holds again, with this name known |
| Answers.PointerReads | src/dnslib/src/AnswerBase.cpp:64-68 | an appended owner pointer reads as the name it points at |
| Answers.AnswerBase.WriteRdlength | src/dnslib/src/AnswerBase.cpp:81-85 | patches exactly the two octets of RDLENGTH |
| Answers.AnswerBase.WriteOwner | src/dnslib/src/AnswerBase.cpp:49-68 | the owner, by name or by pointer, reads back, and can be pointed at from then on |
| Answers.AnswerBase.WriteHeader | src/dnslib/src/AnswerBase.cpp:42-79 | owner, type, class, time to live and an RDLENGTH field to patch; size is the number of octets appended |
| Answers.Completed | src/dnslib/src/AnswerBase.cpp:81-85 | filling RDLENGTH with the number of octets behind it turns header and data into a complete record |
| Answers.AnswerBase.WriteAddress | src/dnslib/include/vudnslib/RdataA.h:24-31 | the address octets are the data, and RDLENGTH, fixed by the type, is their number |
| Answers.AnswerBase.WriteTarget | src/dnslib/include/vudnslib/RdataCname.h:16-23 | one compressed name is the data (CNAME and NS), and RDLENGTH is its length |
| Answers.AnswerBase.WriteMx | src/dnslib/include/vudnslib/RdataMx.h:17-28 | preference, then one compressed name; RDLENGTH is two more than the name takes |
| Answers.AnswerBase.WriteText | src/dnslib/include/vudnslib/RdataTxt.h:16-23 | a length octet modulo 256, and the text |
| Answers.TextIsOneString | src/dnslib/include/vudnslib/AnswerBase.h:100-105 | TXT data is one character-string that says the text exactly when the text has at most 255 octets |
| Answers.AnswerBase.WriteSoa | src/dnslib/include/vudnslib/RdataSoa.h:23-52 | MNAME if it is set, RNAME, five 32-bit numbers; RDLENGTH counts all of them. Which number stands where is said by RecordOctets.SoaOctets |
| Answers.AnswerBase.Write | src/dnslib/src/AnswerBase.cpp:42-85 | for every record type RDLENGTH equals the data octets that follow, size equals the octets appended, the record read back says what was meant (octet by octet in RecordOctets), and its size is exactly what the names known before determine |
| Answers.AnswerBase.Revert | src/dnslib/include/vudnslib/AnswerBase.h:42-44 | the buffer is cut back to where the record began |
| RecordOctets.FrameOctets | src/dnslib/src/AnswerBase.cpp:42-79 | type, class 1, time to live 300 and RDLENGTH stand behind the owner name of a record, most significant octet first, and RDLENGTH reaches to its end |
| RecordOctets.AddressOctets | src/dnslib/include/vudnslib/RdataA.h:24-31 | an address record has type 1 or 28, and its data is the 4 or 16 octets of the address |
| RecordOctets.TargetOctets | src/dnslib/include/vudnslib/RdataCname.h:16-23 | an alias (type 5) or name server (type 2) holds one name and nothing else |
| RecordOctets.MxOctets | src/dnslib/include/vudnslib/RdataMx.h:17-28 | an MX record (type 15) holds the preference in two octets and then the name of the exchanger |
| RecordOctets.TextOctets | src/dnslib/include/vudnslib/RdataTxt.h:16-23 | a TXT record (type 16) holds an octet with the length modulo 256 and then the text |
| RecordOctets.SoaOctets | src/dnslib/include/vudnslib/RdataSoa.h:29-47 | in an SOA record (type 6) that ends at e, the reader finds serial at e - 20, refresh at e - 16, retry at e - 12, expire at e - 8 and minimum at e - 4; in front of them the full MNAME, if set, and the full RNAME |
| RecordOctets.FullLabels | src/dnslib/src/AnswerBase.cpp:89-96 | the labels of a qualified name are its own and then those of the zone, unless it ends in a dot or is empty |
| RecordOctets.PointerOctets | src/dnslib/src/AnswerBase.cpp:140-151 | two octets from 192 on continue a name at the offset in their low fourteen bits, if that lies before them |
| MessageHeaders.FlagsOfWord | src/dnslib/include/vudnslib/MessageHeader.h:58-65 | the flag word unpacks to the fields it was packed from |
| MessageHeaders.WordOfFlags | src/dnslib/include/vudnslib/MessageHeader.h:58-65 | the word packs from the fields it unpacks to: the fields cover all sixteen bits |
| MessageHeaders.BitIsQr | src/dnslib/include/vudnslib/MessageHeader.h:71-75 | clearing bit 15 of the word and setting it on demand changes QR and no other field; BitIsAa, BitIsTc and BitIsRa likewise |
| MessageHeaders.CodeIsField | src/dnslib/include/vudnslib/MessageHeader.h:100-103 | clearing the low four bits of the word and setting them to a code changes the reply code and no other field |
| MessageHeaders.HeaderRoundTrip | src/dnslib/include/vudnslib/MessageHeader.h:114-123 | a written header reads back, and no octet behind it changes |
| MessageHeaders.MessageHeader.Parse | src/dnslib/include/vudnslib/MessageHeader.h:29-43 | the six words of the first 12 octets, most significant octet first |
| MessageHeaders.MessageHeader.SetQr | src/dnslib/include/vudnslib/MessageHeader.h:71-75 | masks the 16-bit word so that QR is what is asked for and every other field and word stays; the setters of TC, RA, AA and the reply code likewise |
| MessageHeaders.MessageHeader.Write | src/dnslib/include/vudnslib/MessageHeader.h:114-123 | the buffer reads back as this header and is unchanged behind it |
| LabelHeaders.LabelHeader.FindKnown | src/dnslib/include/vudnslib/LabelHeader.h:137-149 | the first known label that starts at the pointer, or none |
| LabelHeaders.LabelHeader.Round | src/dnslib/include/vudnslib/LabelHeader.h:37-110 | one pass through the loop is one step of the specification, for every refusal, label, pointer and end |
| LabelHeaders.Run | src/dnslib/include/vudnslib/LabelHeader.h:25-111 | terminates on all octets because every round spends some of a budget of 255; every label it returns lies inside the message and the names sum to at most 255 |
| LabelHeaders.LabelHeader.Parse | src/dnslib/include/vudnslib/LabelHeader.h:25-111 | the constructor computes this run: the same names, sizes, known labels and refusals |
| LabelHeaders.PointerLoops | src/dnslib/include/vudnslib/LabelHeader.h:86-105 | a pointer in the first question returns to itself until the budget is spent, and is refused |
| LabelHeaders.AcceptedIsPlain | src/dnslib/include/vudnslib/LabelHeader.h:37-111 | every name accepted with no labels known before is plain: a chain of labels of 1 to 63 octets up to a zero octet, with the sizes that follow from it |
| LabelHeaders.RunAlongChain | src/dnslib/include/vudnslib/LabelHeader.h:37-111 | along any chain of labels the run succeeds if and only if there is a label, all characters are allowed and the total is at most 255 |
| LabelHeaders.RefusedAt | src/dnslib/include/vudnslib/LabelHeader.h:37-111 | behind any chain of allowed labels the next octet decides which refusal it is: no labels, an illegal label, or something that does not fit |
| LabelHeaders.ParserUndoesPrinter | src/dnslib/include/vudnslib/LabelHeader.h:37-111 | octets of a label list, written plain, parse back to the same list with GetSize equal to the octets written, if and only if the list is not empty, its characters are allowed and its lengths sum to at most 254 |
| LabelHeaders.ParserReadsPlainName | src/dnslib/include/vudnslib/LabelHeader.h:37-111 | the octets that the printer appends for a name that reuses nothing, at any place in any message, the parser reads as exactly that name, under the same exact condition |
| LabelHeaders.ParseQuestion | src/dnslib/include/vudnslib/Question.h:12-30 | name, type and class, refused when the four octets do not fit |
| LabelHeaders.FirstQuestion | src/dnslib/include/vudnslib/Question.h:12-34 | an accepted first question occupies GetSize octets inside the received ones, and they are exactly its plain encoding |
| LabelHeaders.QuestionAgain | src/dnslib/src/DnsDaemonImpl.cpp:295-305 | parsing the same question again, with labels known by then, gives the same question |
| DnsPlans.AuthorityPrefix | src/dnslib/src/DnsDaemonImpl.cpp:340-342 | what the first zones put into the authority section is a front of what all of them put there |
| DnsPlans.PlanPrefix | src/dnslib/src/DnsDaemonImpl.cpp:328-337 | what the first questions ask for is a front of what all of them ask for |
| DnsPlans.AlikeOk | src/dnslib/src/DnsDaemonImpl.cpp:295-337 | questions that are copies of one are all answered or all refused, with one authority flag |
| DnsPlans.AllTypes | src/dnslib/src/DnsDaemonImpl.cpp:391-471 | a query for all types is answered with an alias and a text only, so the addresses of the zone are among the answers if and only if it has none |
| AnswersByType.QuestionIs | src/dnslib/src/DnsDaemonImpl.cpp:367-472 | by the number of the type, on the fields of the zone found: exactly which records answer a question, in order; which zone is its authority; which servers it names; whether it is authoritative; and which problem it is where it is not answered |
| AnswersByType.AsAsked | src/dnslib/src/DnsDaemonImpl.cpp:393-468 | whatever is asked for but everything, each answer is of that type under the name asked for, or the alias, or an address owned by the alias |
| AnswersByType.SoaZoneIs | src/dnslib/src/DnsDaemonImpl.cpp:474-482 | the zone found on the way up is the nearest one that has an SOA record, and none is found only if no zone above has one |
| PlannedSections.WholePlanIs | src/dnslib/src/DnsDaemonImpl.cpp:328-347 | a record is in a section of the plan just when some question gives cause for it: answers; the name servers of the authorities; the addresses of those servers and of the mail exchangers |
| PlannedSections.OneQuestion | src/dnslib/src/DnsDaemonImpl.cpp:328-347 | for one question the answers and the authority section, record by record in order |
| PlannedSections.NextServer | src/dnslib/src/DnsDaemonImpl.cpp:484-493 | each zone of a server goes to the end of the list, unless there is none or the same object is there already |
| DnsPlans.OnlySayableIsRead | src/dnslib/src/DnsDaemonImpl.cpp:557-566 | no octets at all read as a list of planned records one of which has a label in its owner or data of other than 1 to 63 octets; with Response.Store, records can be read as planned exactly when all their names are legal |
| ServingExamples.AddressIsWithheld | src/dnslib/src/DnsDaemonImpl.cpp:391-471 | a query for all types of a zone with an address gets no answer |
| ServingExamples.AddressIsServed | src/dnslib/src/DnsDaemonImpl.cpp:418-424 | a query for the IPv4 addresses of a zone with one address gets one A record with it |
| Responses.Response.Store | src/dnslib/src/DnsDaemonImpl.cpp:557-566 | a record is kept, counted and read back as planned, or taken back without a trace in the buffer; it is taken back exactly when the reply with it would be longer than 512 octets |
| Responses.Response.CopyQuestion | src/dnslib/src/DnsDaemonImpl.cpp:312-318 | the copied octets read back as the question, and its name can be pointed at |
| Responses.Response.StoreA | src/dnslib/src/DnsDaemonImpl.cpp:404-409 | one A record per address, in order, up to the first that does not fit |
| Responses.Response.StoreAaaa | src/dnslib/src/DnsDaemonImpl.cpp:410-415 | one AAAA record per address, in order, up to the first that does not fit |
| Responses.QuestionReads | src/dnslib/src/DnsDaemonImpl.cpp:315-318 | the octets of a question, appended, are read as that question and nothing more |
| Responses.RoomGrows | src/dnslib/src/DnsDaemonImpl.cpp:557-566 | every record takes at least 11 octets |
| Responses.LongestIsGreatest | src/dnslib/src/DnsDaemonImpl.cpp:327-352 | the front of the plan that is delivered is the greatest that fits: any front fits if and only if it is no longer |
| DnsDaemons.DnsDaemon.GetSoaZone | src/dnslib/src/DnsDaemonImpl.cpp:474-482 | the nearest zone upwards with an SOA record |
| DnsDaemons.DnsDaemon.AddZone | src/dnslib/src/DnsDaemonImpl.cpp:484-493 | a zone is added unless it is null or, as the same object, there already |
| DnsDaemons.DnsDaemon.StoreCname | src/dnslib/src/DnsDaemonImpl.cpp:535-555 | the alias, completed with the domain of the parent unless it is absolute, is stored and returned |
| DnsDaemons.DnsDaemon.AnswerAddresses | src/dnslib/src/DnsDaemonImpl.cpp:393-434 | the records planned for an address query, as far as they fit: an alias first and, for type A, the addresses behind it. Which records these are is said by AnswersByType.QuestionIs |
| DnsDaemons.DnsDaemon.AnswerMx | src/dnslib/src/DnsDaemonImpl.cpp:450-462 | one MX record per exchanger as far as they fit, and the zones of the exchangers noted |
| DnsDaemons.DnsDaemon.ProcessNsAuthZone | src/dnslib/src/DnsDaemonImpl.cpp:496-513 | one NS record per server as far as they fit, and the zones of the servers noted |
| DnsDaemons.DnsDaemon.ProcessNsZone | src/dnslib/src/DnsDaemonImpl.cpp:516-533 | the addresses of a zone as far as they fit |
| DnsDaemons.DnsDaemon.ProcessQuestion | src/dnslib/src/DnsDaemonImpl.cpp:367-472 | stores the planned answers as far as they fit, or throws what the plan says; authority flag and zone lists follow the plan. The plan for each type is said by AnswersByType.QuestionIs |
| DnsDaemons.DnsDaemon.ReadQuestions | src/dnslib/src/DnsDaemonImpl.cpp:294-322 | the questions the code reads (copies of the first one when QDCOUNT is greater than one) or the same refusal, each copied octet for octet |
| QuestionsAsked.FirstIsRead | src/dnslib/src/DnsDaemonImpl.cpp:300-304 | the first question as the server parses it is the first one that a reader of the received octets finds |
| QuestionsAsked.AnsweredAreAsked | src/dnslib/src/DnsDaemonImpl.cpp:294-322 | for every accepted datagram that a reader can read: the questions answered are the questions asked if and only if all questions asked are the same |
| QuestionsAsked.SecondIsNotAnswered | src/dnslib/src/DnsDaemonImpl.cpp:294-322 | any two acceptable questions in one datagram are answered as the first one twice |
| QuestionsAsked.TwoNamesAskedOneAnswered | src/dnslib/src/DnsDaemonImpl.cpp:294-322 | a datagram that asks for the addresses of a and of b is answered for a twice |
| DnsDaemons.DnsDaemon.AnswerQuestions | src/dnslib/src/DnsDaemonImpl.cpp:328-337 | all answers in order up to the first that does not fit |
| DnsDaemons.DnsDaemon.FillSections | src/dnslib/src/DnsDaemonImpl.cpp:327-352 | three sections that are fronts of the plan, each begun only when those before are complete; the counters are their lengths, and together they are the longest front that fits |
| DnsDaemons.Finished | src/dnslib/src/DnsDaemonImpl.cpp:354-365 | writing the header over the first 12 octets leaves all questions and records as they were |
| DnsDaemons.DnsDaemon.ProcessQuestions | src/dnslib/src/DnsDaemonImpl.cpp:261-365 | a reply of at most 512 octets that parses with nothing left over as header, QDCOUNT questions and exactly ANCOUNT, NSCOUNT and ARCOUNT records in section order: the longest front of the plan that fits, with TC set exactly when something is missing |
| DnsDaemons.DnsDaemon.CreateErrorReply | src/dnslib/src/DnsDaemonImpl.cpp:568-581 | 12 octets: the header of the query with QR, the reply code and no counts |
| DnsDaemons.DnsDaemon.ProcesssQuerey | src/dnslib/src/DnsDaemonImpl.cpp:174-259 | for any datagram: no reply, an error reply, or the planned answers, as the verdict on the query says. ReplyOctets.RepliesByNumber says the same in octets |
| ReplyOctets.ErrorIs | src/dnslib/src/DnsDaemonImpl.cpp:568-580 | an error reply is 12 octets: those of the query with QR on and the code in the low four bits, and zero counts |
| ReplyOctets.DeliversIs | src/dnslib/src/DnsDaemonImpl.cpp:349-364 | in an answer TC is on just when a section is incomplete, AA when the plan is authoritative, RA off, QR on; the counts are those of the records that a reader finds, at most 512 octets in all |
| ReplyOctets.RepliesByNumber | src/dnslib/src/DnsDaemonImpl.cpp:174-259 | any reply to any datagram in octets: code 1 for QR, for no labels, for an illegal label, and for questions that do not fit; 2 for other names and for a missing SOA record; 3 for a name denied; 4 for other operations; 5 for other classes; no reply for a domain that is not ours; else what is planned |
| ReplyOctets.BadNames | src/dnslib/src/DnsDaemonImpl.cpp:230-246 | where the name of the question goes wrong behind allowed labels, the octet there decides between code 1 and code 2 |
| ReplyOctets.QuestionStands | src/dnslib/src/DnsDaemonImpl.cpp:294-322 | the question answered stands behind the header: its plain name, type and class |
| ReplyOctets.AddressReply | src/dnslib/src/DnsDaemonImpl.cpp:418-433 | the answers to an address query, as a reader finds them in the reply, are the addresses of the zone in order, with type, class, time to live and owner |
| ReplyOctets.SoaReply | src/dnslib/src/DnsDaemonImpl.cpp:439-446 | the answer to an SOA query, in the octets of the reply, has the five numbers of the nearest zone upwards with an SOA record |
| ZoneTrees.GetWith | src/dnslib/src/ZoneMgrJson.h:37-43 | replacing a node changes the map at its path and below it only |
| ZoneTrees.LocateSnoc | src/dnslib/src/ZoneMgrJson.cpp:164-183 | one more label leads to a child of the node reached so far, or nowhere |
| ZoneTrees.SoundWith | src/dnslib/src/ZoneMgrJson.cpp:263-276 | another valid node with the same label keeps sibling labels unique and all entries valid |
| ZoneMaps.EntriesOfGrown | src/dnslib/src/ZoneMgrJson.cpp:163-202 | walking the labels of a path adds exactly its missing prefixes to the map, blank and without authority |
| ZoneMaps.EntriesOfSet | src/dnslib/src/ZoneMgrJson.cpp:263-276 | new data in a node is new data at its path and nowhere else |
| ZoneMaps.EntriesOfBump | src/dnslib/src/ZoneMgrJson.cpp:292-306 | the walk through the parents ends at the longest authoritative prefix of the path, and adds one to that serial, modulo 2^32, alone |
| ZoneMaps.EntriesOfErased | src/dnslib/src/ZoneMgrJson.cpp:244-252 | erasing a child removes exactly its path and all paths below |
| ZoneSections.SearchIsExact | src/dnslib/src/ZoneMgrJson.cpp:51-80 | a path in the tree is found, and an answer is the right one exactly when it is as deep as the path is long |
| ZoneSections.SearchIsWalk | src/dnslib/src/ZoneMgrJson.cpp:51-80 | in a sound tree Search answers for exactly the paths of which every label is found on the level of the last node met that has children |
| ZoneSections.DepthIsExact | src/dnslib/src/ZoneMgrJson.cpp:59-73 | the depth, on which stalling is defined, is the number of labels of a path that are in the tree: so many lead to a node, and one more does not |
| ZoneSections.WalkOutsideTheTree | src/dnslib/src/ZoneMgrJson.cpp:59-73 | a path that is not in a sound tree can be walked exactly when its last label present is that of a leaf and the labels after it are met from the level of that leaf on |
| ZoneSections.SearchOutsideTheTree | src/dnslib/src/ZoneMgrJson.cpp:59-73 | for a path missing in a sound tree Search answers exactly when the walk stalls at a leaf |
| ZoneSections.TargetIs | src/dnslib/src/ZoneMgrJson.cpp:51-80 | Search answers with the path asked for exactly when it is in the tree; any other answer is a shorter path |
| ZoneSections.TargetOnRoots | src/dnslib/src/ZoneMgrJson.cpp:244 | the answer is a root zone exactly when all labels before the last are those of root zones without children; it is then the root with the last label |
| ZoneSections.NoWildcards | src/dnslib/src/ZoneMgrJson.cpp:59-73 | on any tree, Search finds and passes only nodes whose labels are asked for: never one with an empty label for a path of clean labels |
| ZoneSections.CreateRefines | src/dnslib/src/ZoneMgrJson.cpp:154-211 | on the map: AlreadyExists for a path that is there or empty, else the missing prefixes and the zone, counted at the nearest authority, or Validation or SaveFailed; the tree stays sound |
| AuthorityFields.CreateByFields | src/dnslib/src/ZoneMgrJson.cpp:154-211 | a create without an entry on the way up that has both SOA record and authority flag ends in Validation; else the lowest one with both, and no other, has its serial one up; missing parts come in with no data, and all other entries stay |
| ZoneSections.UpdateRefines | src/dnslib/src/ZoneMgrJson.cpp:223-232 | on the map: NotFound, or new data at the path that Search answers with, counted; no label changes |
| AuthorityFields.ReplaceByFields | src/dnslib/src/ZoneMgrJson.cpp:223-232 | the same for an update: the entry holds the fields given, no path comes or goes |
| ZoneSections.UpdateIsExact | src/dnslib/src/ZoneMgrJson.cpp:215-233 | Update does on the map what is documented, NotFound included, if and only if the path is in the tree or the walk does not stall on it |
| ZoneSections.GivenSoaIsKept | src/dnslib/src/ZoneMgrJson.cpp:223-230 | after a committed update the SOA stored is the SOA given if and only if the zone given is no authority; an authority is counted up, its serial given or not |
| ZoneSections.DeleteRefines | src/dnslib/src/ZoneMgrJson.cpp:239-261 | on the map: NotFound, Validation, SaveFailed, or the path that Search answers with gone with all below it, the serial counted before |
| AuthorityFields.RemoveByFields | src/dnslib/src/ZoneMgrJson.cpp:239-261 | the same for a delete: the path is gone with all below it, and a root is refused |
| AuthorityFields.FlagOffIsNotCounted | src/dnslib/src/ZoneMgrJson.cpp:292-306 | an entry with the authority flag off, or without an SOA record, never has its serial counted |
| ZoneSections.DeleteIsExact | src/dnslib/src/ZoneMgrJson.cpp:235-261 | Delete does on the map what is documented if and only if the path is in the tree, the walk does not stall on it, or it stays among root zones without children and the root with the last label has authority |
| ZoneExamples.UpdateOfAnotherZone | src/dnslib/src/ZoneMgrJson.cpp:61-68 | with two root zones com and www an update of the missing www.com changes the root www |
| ZoneExamples.PutOfMissingZoneThrows | src/dnslib/src/RestHandler.cpp:226-243 | on the same tree a PUT of the missing www.com throws instead of creating it |
| ZoneExamples.DeleteOfAnotherZone | src/dnslib/src/ZoneMgrJson.cpp:61-68 | in a zone com with a.com and b.com a delete of the missing b.a.com removes b.com |
| ZoneExamples.GivenSerialIsCountedUp | src/dnslib/src/ZoneMgrJson.cpp:225-228 | an update of com that gives the serial 7 stores 8 |
| ZoneExamples.UpdateWithoutAuthority | src/dnslib/src/ZoneMgrJson.cpp:296-303 | a root with an SOA record and the authority flag off: updating it to what it is ends in Validation |
| ZoneSections.LabelsOfZone | src/dnslib/src/ZoneMgrJson.cpp:14-23 | the labels of a handle are those of its path, lowest first |
| ZoneSections.FilterRefusesStall | src/dnslib/src/ZoneMgr.cpp:25-30 | a stalled answer has fewer labels, so its name has fewer dots and the comparison refuses it |
| ZoneSections.LookupNameIsExact | src/dnslib/src/ZoneMgr.cpp:19-36 | LookupName finds a domain if and only if its path is in the tree and the domain has no empty labels; it then returns the node of that path |
| ParentPointers.InitIsCoherent | src/dnslib/src/ZoneMgrJson.cpp:317-325 | whatever the pointers were, after Init every node points to where its parent lies, and nothing else has changed |
| ParentPointers.CoherentParent | src/dnslib/src/ZoneMgrJson.cpp:317-325 | in a coherent tree the pointer of a node is the address of the node one step up its cursor, so the loops over parents run through the prefixes of the cursor |
| ParentPointers.CoherentAfterErase | src/dnslib/src/ZoneMgrJson.cpp:244-252 | after an erase the tree is coherent if and only if no sibling behind the node removed has children |
| ParentPointers.EmplacedIsCoherent | src/dnslib/src/ZoneMgrJson.cpp:187-190 | an empty vector of children for a leaf keeps a tree coherent |
| ParentPointers.CoherentAfterAppend | src/dnslib/src/ZoneMgrJson.cpp:194-199 | after an emplace_back the tree is coherent if and only if the vector kept its buffer or no sibling of the new node has children |
| ParentPointers.FoundInCoherent | src/dnslib/src/ZoneMgr.cpp:19-36 | with coherent pointers the names that the loop reads make LookupName find exactly what it does on cursors |
| ParentPointers.FoundAfterErase | src/dnslib/src/ZoneMgrJson.cpp:244-252 | after an erase LookupName finds a domain if and only if its path is there, it is tidy, and it does not lie below a sibling that moved up, unless the next sibling has the same label up to case |
| ParentPointers.FoundAfterAppend | src/dnslib/src/ZoneMgrJson.cpp:194-195 | after an emplace_back that moved a vector, LookupName finds a domain if and only if its path is there, it is tidy, and it does not lie below a node that was in the vector |
| PointersInForce.GrownAt | src/dnslib/src/ZoneMgrJson.cpp:164-202 | from the first missing label on, a create appends one chain of blank nodes to the level that the labels before it lead to |
| PointersInForce.CreatedIsCommitted | src/dnslib/src/ZoneMgrJson.cpp:154-211 | without its pointers, the tree after emplace_back, assign and IncrementSerial is what the create section commits |
| PointersInForce.EmplacedIsCommitted | src/dnslib/src/ZoneMgrJson.cpp:186-192 | that a leaf first gets an empty vector of children makes no difference to what is committed |
| PointersInForce.CoherentAfterCreate | src/dnslib/src/ZoneMgrJson.cpp:194-210 | the tree that a create leaves in force is coherent if and only if the vector of the first new node kept its buffer or no sibling in it has children |
| PointersInForce.FoundAfterCreate | src/dnslib/src/ZoneMgrJson.cpp:142-211 | on the tree that a committed create leaves in force LookupName finds a domain if and only if its path is there, it is tidy, and it does not lie below a node of a vector that had to move |
| PointersInForce.FoundAfterDelete | src/dnslib/src/ZoneMgrJson.cpp:239-261 | on the tree that a committed delete leaves in force LookupName finds a domain if and only if its path is there, it is tidy, and it does not lie below a sibling that moved up, unless the next sibling has the same label up to case |
| ParentWalks.SoaIsRead | src/dnslib/src/DnsDaemonImpl.cpp:474-482 | the loop of GetSoaZone through stored pointers ends as the walk on cursors does: at a node, at a root without the record, or at an address where nothing lies |
| ParentWalks.SoaAboveIs | src/dnslib/src/DnsDaemonImpl.cpp:474-482 | with right pointers the loop ends at the zone that the handle of the node names |
| ParentWalks.SoaIsRight | src/dnslib/src/DnsDaemonImpl.cpp:474-482 | where the children of one level are left behind, the loop ends where it should if and only if the node is not below that level, a zone below the level has the record, or the parent on the level is in its old place, or neither it nor what is there has the record |
| ParentWalks.NameIsRight | src/dnslib/src/ZoneMgrJson.cpp:14-23 | there, GetDomainName reads the domain of a node if and only if the node is not below that level or a node with the label of its parent lies in the old place |
| ParentWalks.SoaAfterDelete | src/dnslib/src/ZoneMgrJson.cpp:244-257 | on the tree that a committed delete leaves in force, exactly for which nodes the SOA record is looked for where it should be |
| ParentWalks.SoaAfterCreate | src/dnslib/src/ZoneMgrJson.cpp:194-210 | on the tree that a create leaves in force after moving a vector, the SOA record is looked for where it should be if and only if the node is not below one that was in the vector, or a zone below that one has the record |
| ZoneExamples.DeleteHidesCousin | src/dnslib/src/ZoneMgrJson.cpp:244-252 | with a.com, b.com and a.b.com a delete of a.com leaves a.b.com in the tree where LookupName does not find it |
| PointerExamples.CreateHidesCousin | src/dnslib/src/ZoneMgrJson.cpp:194-210 | with a.com, b.com and a.b.com a create of c.com that moves its siblings leaves a.b.com in the tree where LookupName does not find it |
| PointerExamples.DeleteLosesSoa | src/dnslib/src/DnsDaemonImpl.cpp:474-482 | with the same zones, after a delete of a.com the SOA record of a.b.com, that of com, is not found |
| ZoneMgrJsons.GetDomainName | src/dnslib/src/ZoneMgrJson.cpp:14-23 | label and parent labels with dots between |
| ZoneMgrJsons.ZoneMgrJson.Search | src/dnslib/src/ZoneMgrJson.cpp:51-80 | the loop computes the search on any tree, stalling and equal siblings included |
| ZoneMgrJsons.ZoneMgrJson.Lookup | src/dnslib/src/ZoneMgrJson.cpp:39-49 | a handle and its authority flag; the flag stays off when nothing is found |
| ZoneMgrJsons.ZoneMgrJson.LookupName | src/dnslib/src/ZoneMgr.cpp:19-36 | the filtered answer, and the throw exactly when something else was found and throwing was asked for |
| ZoneMgrJsons.ZoneMgrJson.CopyZones | src/dnslib/src/ZoneMgrJson.cpp:82-93 | a new container with the same tree; what Init makes of the pointers in the copy is ParentPointers.InitIsCoherent |
| ZoneMgrJsons.ZoneMgrJson.Commit | src/dnslib/src/ZoneMgrJson.cpp:95-99 | the new container takes over only if saving succeeds |
| ZoneMgrJsons.ZoneMgrJson.IncrementSerial | src/dnslib/src/ZoneMgrJson.cpp:292-306 | one up at the lowest node from here upwards that has an SOA record and the authority flag, and at no other; false and no change if no node has both |
| ZoneMgrJsons.ZoneMgrJson.AddHosts | src/dnslib/src/ZoneMgrJson.cpp:157-202 | the labels of the path are all there afterwards, the current node is the last of them, and added says whether it is new |
| ZoneMgrJsons.ZoneMgrJson.CreateZone | src/dnslib/src/ZoneMgrJson.cpp:142-213 | first check, validation, then the locked section; a failure leaves the very same container in force, and a container once in force is never written again |
| ZoneMgrJsons.ZoneMgrJson.Update | src/dnslib/src/ZoneMgrJson.cpp:215-233 | validation, then the locked section, with the same atomicity and isolation |
| ZoneMgrJsons.ZoneMgrJson.Delete | src/dnslib/src/ZoneMgrJson.cpp:235-261 | the locked section, with the same atomicity and isolation; root zones are never removed |
| ZoneRuns.AloneIsCheckThenSection | src/dnslib/src/ZoneMgrJson.cpp:142-233 | for a thread that is alone the class methods and the steps of a run compute the same |
| ZoneRuns.StepSerializes | src/dnslib/src/ZoneMgrJson.cpp:142-261 | every step of every thread keeps mutual exclusion, the working copy equal to the tree in force, the log in lock order and every reported result that of its section in turn |
| ZoneRuns.EveryRunIsSerial | src/dnslib/src/ZoneMgrJson.cpp:142-261 | no lost updates: in every interleaving of creates, updates, deletes and patches the tree in force and the reported failures are those of the locked sections run one after the other in lock order, where a patch is the create or update that its reading made of it |
| ZoneRuns.EveryRunIsSound | src/dnslib/src/ZoneMgrJson.cpp:142-261 | from a sound tree every run keeps sibling labels unique and no zone with both an alias and an address |
| ZoneRuns.RacingCreates | src/dnslib/src/ZoneMgrJson.cpp:144-206 | of two creates of one domain that both commit, whatever their first checks saw, a committed delete of it or of a domain above lies between |
| ZoneRuns.PathsStay | src/dnslib/src/ZoneMgrJson.cpp:215-261 | creates and updates never take a path out of the tree; only a delete of it or above it does |
| ZoneRuns.Refusals | src/dnslib/src/ZoneMgrJson.cpp:204-232 | exactly when a locked section fails, and with which exception |
| ZoneRuns.SectionByFields | src/dnslib/src/ZoneMgrJson.cpp:292-306 | every locked section on the map, with the fields spelled out: when it fails and how, and every entry after it |
| ZoneRuns.Accounting | src/dnslib/src/ZoneMgrJson.cpp:208-257 | each committed section adds exactly one, modulo 2^32, to the nearest authority from the changed path up, judged with the new data in place, and changes nothing else beside the data and what a delete removes |
| ZoneRuns.Ledger | src/dnslib/src/ZoneMgrJson.cpp:292-306 | over a whole run the serial of an authority that is given no new data grows by the number of sections it counts, modulo 2^32 |
| ZoneMgrMemories.Choose | src/dnslib/src/ZoneMgrMemory.cpp:34-49 | the first node whose label matches without regard to case, else the last node with an empty label |
| ZoneMgrMemories.FirstOrLast | src/dnslib/src/ZoneMgrMemory.cpp:34-49 | of several matches the first is taken, and where nothing matches the last of several wildcards |
| ZoneMgrMemories.GreedyIsOne | src/dnslib/src/ZoneMgrMemory.cpp:22-64 | the declarative greedy path of a name is unique |
| ZoneMgrMemories.LookupOn | src/dnslib/src/ZoneMgrMemory.cpp:22-64 | a node exactly when the greedy path is complete; the flag is that of the deepest node on it |
| ZoneMgrMemories.Lookup | src/dnslib/src/ZoneMgrMemory.cpp:18-20 | the same from the roots, with the flag off at first |
| ZoneMgrMemories.MatchHidesWildcard | src/dnslib/src/ZoneMgrMemory.cpp:37-61 | no backtracking: a matching leaf hides names that the wildcard beside it has |
| ZoneServing.MemoryVerdict | src/dnslib/src/DnsDaemonImpl.cpp:372-383 | with the memory store a question is answered, denied or passed over in silence just as its greedy path is complete, breaks off under a zone with authority, or breaks off elsewhere |
| ZoneServing.MemoryByNumber | src/dnslib/src/DnsDaemonImpl.cpp:211-224 | the reply codes of the memory store in octets, by how far the greedy path of the name leads |
| ZoneServing.MemoryIsIdentified | src/dnslib/src/DnsDaemonImpl.cpp:484-493 | zones of the memory store are told apart by where they are, so lists of zones have each at most once |
| ZoneServing.JsonNeverDenies | src/dnslib/src/DnsDaemonImpl.cpp:372-383 | with the json store a name that is not found is never denied |
| ZoneServing.JsonQuestion | src/dnslib/src/DnsDaemonImpl.cpp:372-383 | with the json store a question gets a zone if and only if its name is in the tree or Search stalls on it; it is the zone of that name if and only if the name is in the tree |
| ZoneServing.JsonByNumber | src/dnslib/src/DnsDaemonImpl.cpp:206-224 | the replies of the json store in octets: answers exactly where the name is in the tree or Search stalls on it, no reply elsewhere |
| ServingExamples.MissingNameIsAnswered | src/dnslib/src/DnsDaemonImpl.cpp:372-383 | asked for the text of the missing b.a.com, the name server answers with that of b.com |
| ZoneServing.PlansAreLegal | src/dnslib/src/DnsDaemonImpl.cpp:367-533 | from zones whose names have legal sizes every reply that can be asked for can be written |
| ZoneServing.WildcardOwnsNothing | src/dnslib/src/DnsDaemonImpl.cpp:516-533 | the domain name of a wildcard zone is never a legal owner name |
| ZoneServing.AnswerFromJson | src/dnslib/src/DnsDaemonImpl.cpp:174-259 | end to end, for any datagram and any json tree of servable zones: silence, an error other than NAME_ERROR, or the planned reply, and each of them octet by octet |
| ZoneServing.AnswerFromMemory | src/dnslib/src/DnsDaemonImpl.cpp:174-259 | end to end, for any datagram and any memory tree of servable zones, octet by octet: code 3 where the greedy path breaks off under authority, no reply where it breaks off elsewhere, code 2 without an SOA record, else answers |
| RestHandlers.Merge | src/dnslib/src/RestHandler.cpp:57-88 | field by field: what the patch leaves open comes from the existing zone; an alias in the patch shuts out its addresses; the authority flag is never merged |
| RestHandlers.GivenIsStored | src/dnslib/src/RestHandler.cpp:57-88 | every field that a patch gives is stored as given |
| RestHandlers.OpenIsKept | src/dnslib/src/RestHandler.cpp:57-88 | every field that a patch leaves open stays as it is, but an alias given takes no address over, nor the other way round |
| RestHandlers.MergeKeepsOneWay | src/dnslib/src/Zone.cpp:13-18 | the merged zone has not both alias and address exactly when the patch has not, if it names any of them, else when the existing zone has not |
| RestHandlers.PatchIsValid | src/dnslib/src/RestHandler.cpp:57-88 | a valid patch of a valid zone is valid |
| RestHandlers.EmptyPatch | src/dnslib/src/RestHandler.cpp:234-242 | a patch that says nothing changes nothing if and only if the zone has authority |
| RestHandlers.PatchTwice | src/dnslib/src/RestHandler.cpp:57-88 | the same patch made twice is the patch made once |
| RestHandlers.PatchOfAnOldReading | src/dnslib/src/RestHandler.cpp:234-253 | a patch merged with an older reading writes what it would write now if and only if no field that it leaves open was changed in between |
| RestHandlers.PatchDecision | src/dnslib/src/RestHandler.cpp:226-243 | PATCH updates a zone that is there, merged with it, and creates one that is not |
| RestHandlers.PutDecision | src/dnslib/src/RestHandler.cpp:226-243 | PUT updates a zone that is there and creates one that is not, unless Search stalls: then LookupName throws |
| RestHandlers.HandledAsDecided | src/dnslib/src/RestHandler.cpp:226-253 | what is decided and reported is what each mode does to the map, stated without the decision |
| RestHandlers.PatchOfUntidyName | src/dnslib/src/RestHandler.cpp:226-253 | a name with empty labels is never patched: create finds its zone to exist already |
| RestHandlers.PatchStores | src/dnslib/src/RestHandler.cpp:234-253 | a valid patch of a zone that is there stores the merged zone at its path, counted |
| PatchRuns.SameUpdate | src/dnslib/src/ZoneMgrJson.cpp:223-232 | two valid updates of one zone with the same authority flag leave the same tree if and only if they assign the same data |
| PatchRuns.PatchOfVanishedZone | src/dnslib/src/RestHandler.cpp:226-253 | a patch that commits though its zone is gone has stalled, has changed another zone, and is never what a later reading would have made of it |
| PatchRuns.PatchOfAppearedZone | src/dnslib/src/RestHandler.cpp:226-253 | a patch whose zone has come into the tree since it was looked for is refused with AlreadyExists |
| PatchRuns.LaterPatchUndoes | src/dnslib/src/RestHandler.cpp:234-253 | of two patches that read a zone before either changed it, the later one stores the zone as if the earlier one had never been, its count of the serial included |
| PatchRuns.PatchAtItsTurn | src/dnslib/src/RestHandler.cpp:226-253 | for every committed patch: it leaves the tree that it would leave had it read its zone under the mutex if and only if the zone is in both trees or in neither, and no field that the patch leaves open differs |
| PatchRuns.PatchInRun | src/dnslib/src/RestHandler.cpp:226-253 | the same for every committed patch of every run, with the trees that were in force when it read and when its turn came |
| PatchExamples.PatchOfDeletedZone | src/dnslib/src/RestHandler.cpp:226-253 | a run: a patch of b.a.com reads it, a delete of b.a.com commits, and then the patch commits, without an error, into b.com |
| PatchExamples.LaterPatchWins | src/dnslib/src/RestHandler.cpp:234-253 | a run: two patches of a.com commit without an error, and the text that the first one gave is gone |
| RestHandlers.RestHandler.ProcessSet | src/dnslib/src/RestHandler.cpp:197-263 | on the map of the tree, field by field: POST creates; PUT updates what is there, creates what is not, and throws for untidy names and where Search stalls; PATCH updates with the merged zone or creates; a refusal leaves the store as it was |
| Base64.Table | src/dnslib/src/util.cpp:92-93 | the reverse table holds the value of every symbol and -1 elsewhere |
| Base64.DecodeUndoesEncode | src/dnslib/src/util.cpp:63-106 | decoding undoes encoding for every byte string (RFC 4648, section 4) |
| Base64.AlphabetIs | src/dnslib/src/util.cpp:70 | the symbol of a value is the character at its place in the alphabet of RFC 4648 |
| Base64.SymbolsOfThree | src/dnslib/src/util.cpp:63-86 | the four symbols of three octets are the base-64 digits of their 24-bit number |
| Base64.SymbolsOfRest | src/dnslib/src/util.cpp:63-86 | one octet left over gives two symbols and two signs of padding, two octets give three symbols and one |
| Base64.PushOctet | src/dnslib/src/util.cpp:76 | after a shift by eight in a 32-bit int the low 16 bits are the last two octets, however long the input |
| Base64.PushSextet | src/dnslib/src/util.cpp:98 | after a shift by six the low 12 bits are the last two values |
| Base64.Base64Encode | src/dnslib/src/util.cpp:63-86 | the accumulator loop writes the padded blocks of RFC 4648, section 4 |
| Base64.Base64Decode | src/dnslib/src/util.cpp:88-106 | the accumulator loop returns the octets of the values up to the first octet outside the alphabet |

## Left out

- Answers.WriteDomainName: the labels of the name must have 1 to 63 octets, which the code does not check. `Answers.ReadWritten` and `Answers.WriteName`, which has no such condition, show that names read back exactly then, and `DnsPlans.OnlySayableIsRead` that no octets could say such a record; otherwise an offset enters the index at which no name starts, and the index invariant, on which every later search rests, is lost. The name may have up to `MAX_NAME` octets, far more than the 512 of a reply, so that the buffer stays below the reach of a pointer.
- Answers.AnswerBase.WriteOwner: the same condition on the owner name; a record without any owner is not modelled, as the assertions in the source intend.
- Answers.AnswerBase.WriteHeader: the same condition on the owner name.
- Answers.AnswerBase.WriteTarget: the same condition on the target.
- Answers.AnswerBase.WriteMx: the same condition on the exchanger.
- Answers.AnswerBase.Write: the same condition on all names of the record.
- Responses.Response.Store: the same condition on the names of the planned record.
- DnsDaemons.DnsDaemon.StoreCname: the same condition on the completed alias.
- DnsDaemons.DnsDaemon.AnswerAddresses: the same condition on the names of the planned records.
- DnsDaemons.DnsDaemon.AnswerMx: the same condition on the exchangers.
- DnsDaemons.DnsDaemon.ProcessNsAuthZone: the same condition on the servers and the zone.
- DnsDaemons.DnsDaemon.ProcessNsZone: the same condition on the zone, if it has addresses.
- DnsDaemons.DnsDaemon.ProcessQuestion: the same condition on the planned answers.
- DnsDaemons.DnsDaemon.AnswerQuestions: the same condition on the planned answers.
- DnsDaemons.DnsDaemon.FillSections: the same condition on the whole plan.
- DnsDaemons.DnsDaemon.ProcessQuestions: the same condition on the whole plan.
- DnsDaemons.DnsDaemon.ProcesssQuerey: the same condition on the whole plan; `ZoneServing.PlansAreLegal` gives one on the zones alone. A datagram that fills the receive buffer to its last octet is left out, because the parser then reads behind it.
- Answers.AnswerBase.WriteSoa: the same condition on MNAME and RNAME. Zones of the json store never have MNAME set; the record then lacks that field, and the model claims framing and what is written, not a complete SOA record.
- Answers.AnswerBase.WriteText: for a text of more than 255 octets only the octets and their framing are stated, see `Answers.TextIsOneString`.
- Answers.AddLabelForCompression: the model says which names the index stands for, not how often each is entered.
- ZoneMgrJsons.ZoneMgrJson.CreateZone: trees whose siblings have equal labels, which a hand-written file could contain, are excluded by `Sound`; Search alone is proved for all trees.
- ZoneMgrJsons.ZoneMgrJson.CopyZones: the class works on trees without pointers, which is what coherent pointers amount to; within a locked section no walk starts below a node that has moved.
- ZoneServing.JsonQuestion: the name server is modelled on handles with right pointers; `ParentWalks.SoaIsRight` and `ParentWalks.NameIsRight` say for which nodes of a tree in force that is what it reads.
- PointersInForce.FoundAfterCreate: which buffers a vector gets, and whether it has room, is a parameter; what lies in a buffer no longer in use is not modelled, so a pointer into it reads no name.
- ZoneRuns.EveryRunIsSerial: reading the shared pointer to the tree without the mutex is taken to be atomic, and readers that hold an older tree are covered by the frames of `ZoneMgrJson`.
- ZoneRuns.Ledger: zones that are given new data are left out, because the new data brings its own serial.
- ZoneServing.AnswerFromJson: zones with labels of other sizes than 1 to 63 octets are left out. One tree serves the whole query; changes to the zones between two lookups of one query are not modelled.
- ZoneServing.AnswerFromMemory: zones with labels of other sizes than 1 to 63 octets, other than wildcards, are left out.
- RestHandlers.RestHandler.ProcessSet: decoding the request body is not modelled, nor the texts and status codes of replies; a body that cannot be decoded counts as whatever was decoded so far, as in the code.
- `ForEachZone`, `ForEachChild`, `Print` and GET requests only read the tree and would add easy claims.
- Sockets, coroutines, TLS, signals, the thread pool, the HTTP server, authentication and the command line.
- Loading and saving of json, yaml and property trees.
- Logging, statistics and `GetNameFromOffset`, which serves the log only.
- The regular expression for labels is a predicate on characters.
- Setters and getters of the message header that the server does not use, among them `GetZ`, which overlaps RA.
