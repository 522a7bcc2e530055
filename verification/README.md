# A verified model of SyncEvolution's D-Bus binding

The C++ binding between SyncEvolution and D-Bus exists twice: on top of GIO
(`src/gdbusxx`) and on top of libdbus (`src/gdbus`). These modules model its behaviour
and prove what callers rely on, for every input, every run and every interleaving.

## What is proved

**Marshalling** (`Utf8`, `Wire`, `Marshal`, `RoundTrip`, `Builder`, `RecursiveVariant`).
Messages are trees of typed values. `Marshal` says what each C++ type looks like as a
signature, how it is appended and how it is read back; `Builder` does the same step by
step, with a builder that opens and closes containers and with iterators that advance,
and is proved against `Marshal`. Results: signatures are uniquely decodable, so comparing
type strings decides type equality; what was appended as one C++ type is read as any type
with the same signature, with exactly the result that `Marshal.Received` describes, and
nothing of the following value is touched; with the same type on both sides that is the
value with repaired text if and only if every variant alternative is recognised, and the
value itself if and only if its text is clean too; the UTF-8 repair keeps exactly the
octets inside well-formed characters; reading throws exactly if a message lacks the
structure that the reader insists on; the recursive variant decodes all mixtures of variants, arrays and
tuples that show the same nested list to that list, and throws exactly if some node does
not belong.

**Calls** (`RemoteCall`, `AsyncCall`, `MethodReply`, `MethodMap`). A remote call, from the
client's call operator to its return value, is the local call on what the arguments
become, with what the results become, argument by argument, with the message attributes in
their places; request and reply have exactly the declared types.
For a method that replies through a Result object, the caller always gets an answer in the
end, and it is the first one that the function gave, now or later. Every incoming call is answered at least once, whichever of the exception
handler, the guards and the Result objects has to answer, and there is an exact condition
for "exactly once"; which object answers on its own is decided by counting the copies of
its references. The scan over the shared method map erases exactly the entries of one
object.

**Registries** (`ObjectRegistry`, `WatchList`, `WatchRegistry`). The cached introspection
document of every object is up to date after every registration and removal, although
only the object and its nearest registered ancestor are printed again; one registration
or removal changes exactly the interface it names; reference counts are conserved over all
runs. The walk over the linked list of watches notifies each
matching watch once and in order while callbacks unlink the current node; a
disconnect watch, added at any time, fires exactly once if its name vanishes before it is
removed and never otherwise; the slot's reference count is the number of live
watches and handlers over all connections.

**Smaller protocols** (`PeerWatch`, `SignalFilter` with `ObjectPath`, `GrowingTable`,
`PrintfDyn`, `InfoRequest`). No disconnect of a peer is lost or reported twice, whatever
the interleaving; path-prefix filtering is component-wise and never wider than the match
rule on the bus; the method table that grows by doubling always ends in bounds with its
end marker, and dispatch finds the first matching entry; the growing formatter returns
the whole text; replies to information requests follow their protocol for each
identifier, whatever other requests do.

Code that changes state in place is modelled by classes and methods with loops (`Builder`,
`MethodReply.Invocation`, `MethodMap.Methods`, `ObjectRegistry.Registry`,
`WatchList.ConnectionWatches` with its nodes on the heap, `WatchRegistry.Registry`,
`PeerWatch.PeerWatch`, `GrowingTable.DBusVector`, `PrintfDyn`,
`InfoRequest.RemoteSession`). Each method states its whole new state through functions,
and the lemmas are about these functions.

## Where the code does not do what one would expect

- A map whose keys differ only in octets that are not UTF-8 arrives with fewer entries,
  because the keys become equal and `insert` keeps the first (`RoundTrip.CollidingKeys`).
  `RoundTrip.ArrivedMap` says which entries arrive, `RoundTrip.NormIdentity` when the
  value arrives unchanged.
- If two alternatives of a variant have the same D-Bus type (say `uint8_t` and `int8_t`),
  the later one is read back as the earlier one, at any depth
  (`RoundTrip.SignedCharBecomesUnsigned`, `RoundTrip.NestedSignedCharBecomesUnsigned`).
  `RoundTrip.RoundTripExact` says exactly which values come back.
- `owner_function` reads the disconnect callback of a watch after it called the connect
  callback. If the connect callback ended its own watch, that is memory which was freed
  (src/gdbus/watch.c:120-123; `WatchList.ConnectRemovesItself`); the comment above the loop
  promises that a watch may remove itself. `WatchList.FaultFree` says exactly when this
  does not happen.
- `b_dbus_remove_all_watches` frees the connection's data but leaves the pointer to it in
  the connection (src/gdbus/watch.c:392-394, unlike 319-324;
  `WatchRegistry.RemoveAllKeepsInv`). Runs therefore do not use a connection afterwards.
- A registration that is refused because the interface name exists already has taken a
  reference to the object and never gives it back, so the path stays registered for good
  (src/gdbus/object.c:964-975; `ObjectRegistry.RefusedTwice`).
  `ObjectRegistry.RefusalKeepsPath` says exactly which paths are registered.
- `DBusResult` answers as often as `done` or `failed` are called; only its destructor looks
  whether a reply was sent (src/gdbusxx/gdbus-cxx-bridge.h:2689-2730). If the function
  does not throw, each of several Result parameters sends at least one reply
  (`MethodReply.TwoResultsReplyTwice`). `MethodReply.ExactlyOneReply` says exactly when
  there is one reply.
- An asynchronous method with a return value or writable references declares them as
  results, but what `done` sends does not contain them (`AsyncCall.AsyncReplyType`).
- With the prefix flag the bus also delivers signals of the filter's path itself, which
  the local test drops (`SignalFilter.OwnPathIsDropped`), and with the filter "/" the bus
  delivers everything and the local test drops everything
  (`SignalFilter.BothTestsOnPaths`). The comment on the flag
  (src/gdbusxx/gdbus-cxx-bridge.h:5269-5280) allows no trailing slash and does not say
  that the path itself is not a match.
- The dispatch loop looks at the first method of a table before it knows that there is
  one; an interface without methods has no table (`GrowingTable.Dispatch`).

## Model

The main results come first, then the steps towards them, module by module.

| member | source | states |
|---|---|---|
| Utf8.RepairPointwise | src/gdbusxx/gdbus-cxx-bridge.h:1557-1580 | an octet survives exactly if it lies inside some well-formed character, wherever that starts; every other octet becomes a question mark |
| Utf8.RepairIsValid | src/gdbusxx/gdbus-cxx-bridge.h:1547-1550 | what is handed to g_variant_new_string is always valid UTF-8 without NUL |
| Utf8.RepairIdentity | src/gdbusxx/gdbus-cxx-bridge.h:1562-1565 | the text is unchanged if and only if it was valid |
| Wire.ParseOfSignature | src/gdbusxx/gdbus-cxx-bridge.h:1743-1753 | a signature followed by any text is parsed to its type and leaves exactly that text |
| Wire.SignatureOfParse | src/gdbusxx/gdbus-cxx-bridge.h:2492-2504 | only signatures are parsed: what was consumed is the signature of the type that was found |
| Wire.ArgumentListEquality | src/gdbus/gdbus-cxx-bridge.h:2511-2520 | the concatenated argument signatures determine the list of types |
| RoundTrip.GetAfterAppend | src/gdbusxx/gdbus-cxx-bridge.h:1743-2227 | what was appended as one type is read as any type with the same signature: the reader gets exactly what Received says, for all nested types, and the rest of the iterator is untouched |
| RoundTrip.RoundTripExact | src/gdbusxx/gdbus-cxx-bridge.h:1743-2227 | get on append(v) followed by any rest returns v with repaired text and leaves exactly the rest, if and only if every alternative that arrives is recognised |
| RoundTrip.ReceivedUnchanged | src/gdbusxx/gdbus-cxx-bridge.h:1545-2227 | a value arrives unchanged if and only if its text is clean and its alternatives are recognised |
| RoundTrip.GetTotal | src/gdbusxx/gdbus-cxx-bridge.h:1367-1376 | a message of the declared type, from any peer, is read without exception to a value of the C++ type |
| RoundTrip.GetFails | src/gdbusxx/gdbus-cxx-bridge.h:1367-2227 | reading throws if and only if there is no next value or it lacks the structure the reader insists on |
| Builder.Transport | src/gdbusxx/gdbus-cxx-bridge.h:424-606 | a value that is written by the builder and read by an iterator is what Received says, the value itself if and only if it is clean and its alternatives are recognised, and an exception if and only if a path is invalid |
| RecursiveVariant.DecodeExact | src/gdbusxx/gdbus-cxx-bridge.h:2346-2398 | decoding gives t and consumes one element if and only if that element shows t, by whatever mixture of variants, arrays and tuples |
| RecursiveVariant.DecodeFails | src/gdbusxx/gdbus-cxx-bridge.h:2391-2397 | decoding throws if and only if some node that is present is neither V nor a variant, array or tuple |
| RecursiveVariant.RepresentationIndependent | src/gdbusxx/gdbus-cxx-bridge.h:2353-2356 | two ways of sending the same nested list are decoded to the same value |
| RemoteCall.RemoteCallIsLocalCall | src/gdbusxx/gdbus-cxx-bridge.h:4383-4447 | for every synchronous method and every caller with the same signatures: the remote call is the local call on what the arguments become, with what the results become; exceptions arrive as errors |
| RemoteCall.CleanCallIsLocalCall | src/gdbusxx/gdbus-cxx-bridge.h:4383-4447 | if text is clean and alternatives are recognised, nothing distinguishes the two |
| RemoteCall.ExtractedAt | src/gdbusxx/gdbus-cxx-bridge.h:577-606 | parameter by parameter: the k-th input is what the k-th value of the caller becomes, caller and watch are the sender of the message, the others its path, interface and member; extraction throws if and only if a field that is asked for is missing |
| RemoteCall.ReplyType | src/gdbusxx/gdbus-cxx-bridge.h:4414-4415 | the reply of a synchronous method has exactly the declared out-signature |
| RemoteCall.ExtractTotal | src/gdbusxx/gdbus-cxx-bridge.h:4406 | for such a body, whoever sent it, extraction throws if and only if a message attribute that is asked for is missing |
| AsyncCall.AsyncCallIsLocalCall | src/gdbusxx/gdbus-cxx-bridge.h:2681-3125 | for every method with one Result parameter: once all copies are given up the caller has an answer, and it is what the first done or failed said, now or later, an exception if nothing was answered before, or the error of the destructor |
| AsyncCall.AsyncReplyType | src/gdbusxx/gdbus-cxx-bridge.h:3110-3125 | what done sends has the declared out-signature if and only if the method has no return value and no writable references |
| MethodReply.ExactlyOneReply | src/gdbusxx/gdbus-cxx-bridge.h:2592-2739 | exactly one reply is sent if and only if there is at most one Result parameter, answered at most once, and not at all if the function throws or extraction fails |
| MethodReply.ReplyCount | src/gdbusxx/gdbus-cxx-bridge.h:3072-3100 | the number of replies on every complete run; it is never zero |
| MethodReply.DestructorExact | src/gdbusxx/gdbus-cxx-bridge.h:2708-2719 | at the end of any run: the destructor has answered if and only if the object had the duty, all copies were given up, and it was not answered otherwise |
| MethodReply.LegalByCounting | src/gdbusxx/gdbus-cxx-bridge.h:2681-2739 | which uses of Result objects are possible, by counting copies alone |
| MethodMap.EraseIsExact | src/gdbusxx/gdbus-cxx-bridge.h:1204-1227 | no method of the destroyed helper is found any more, every method of every other path is |
| MethodMap.Methods.EraseHelper | src/gdbusxx/gdbus-cxx-bridge.h:1204-1227 | the map without the entries of the path, in the same order |
| ObjectRegistry.Perform | src/gdbus/object.c:950-1056 | after any run on a real registry every cached document shows exactly the interfaces of its object, in order, and exactly the children that lead to registered paths |
| ObjectRegistry.RegisterExact | src/gdbus/object.c:974-992 | a registration succeeds if and only if the name is free; then exactly the new interface is appended, otherwise the interfaces stay; no other path changes |
| ObjectRegistry.UnregisterExact | src/gdbus/object.c:1037-1053 | a removal succeeds if and only if the name is there; then exactly this interface is gone and all others keep tables and order; no other path changes |
| ObjectRegistry.ReachedNamesDistinct | src/gdbus/object.c:974-975 | in every reachable state the names at a path are pairwise distinct |
| ObjectRegistry.OnlyNearestChanges | src/gdbus/object.c:262-264 | registering or removing a path changes the list of children of no registered object but the nearest ancestor |
| ObjectRegistry.Conservation | src/gdbus/object.c:697-1056 | over every run: references are interfaces plus refused registrations, and a path is registered exactly while there are any |
| ObjectRegistry.RefusalKeepsPath | src/gdbus/object.c:974-975 | a path is registered if and only if it has an interface or a registration for it was ever refused |
| WatchList.ConnectionWatches.OwnerFunction | src/gdbus/watch.c:91-128 | the walk notifies exactly the watches that ask for the event, in order, keeps exactly those that do not end, and counts the reads of freed memory |
| WatchList.SignalExact | src/gdbus/watch.c:112-125 | on the strings of one signal: the connect callback is called if and only if the name had no owner and has one now, the disconnect callback if and only if it had one and has none now; the watch stays unless its callback ends it |
| WatchList.NotificationExact | src/gdbus/watch.c:112-125 | each watch that asks for the event is told once, no other is told, and exactly those that end with it are gone |
| WatchList.NotifiedInOrder | src/gdbus/watch.c:112-125 | after any run from an empty connection, watches are told in the order in which they were added |
| WatchList.DisconnectFiresOnce | src/gdbus/watch.c:397-455 | a disconnect watch that is added after any run fires exactly once if its name vanishes before the watch is removed, and not at all otherwise, whatever else happens |
| WatchList.FaultFree | src/gdbus/watch.c:108-124 | no freed memory is read if and only if the signal is not about a new owner, or no connect callback for the name ends its watch |
| WatchList.PerformAllOn | src/gdbus/watch.c:91-331 | any run on the linked list has the effect of the run on values |
| WatchRegistry.Conservation | src/gdbus/watch.c:143-182 | after any run the reference count of the slot is the number of live watches and handlers over all connections, and identifiers are distinct |
| PeerWatch.WatchPeer | src/gdbusxx/gdbus-cxx-bridge.cpp:422-493 | a new watch, whatever happens until everything is quiet: it has fired if and only if the peer is gone; the callback that was installed last is there and has run once or not at all accordingly |
| PeerWatch.LastCallbackRunsOnce | src/gdbusxx/gdbus-cxx-bridge.cpp:431-493 | for every interleaving: the callback is the one of the last setCallback, or none if that took it away; once quiet it has run once if the peer is gone and not at all otherwise |
| PeerWatch.NoDoubledDisconnect | src/gdbusxx/gdbus-cxx-bridge.cpp:461-465 | for every interleaving: each callback runs at most once, and nothing fires for a peer that is there |
| SignalFilter.BothTestsOnPaths | src/gdbusxx/gdbus-cxx-bridge.h:5268-5281 | on path elements: the bus delivers the path and everything below it, the local test keeps what is strictly below, and nothing for "/" |
| SignalFilter.LocalWithinBusRule | src/gdbusxx/gdbus-cxx-bridge.h:5319-5331 | every signal that the local test accepts is delivered by the bus |
| GrowingTable.PushAll | src/gdbus/gdbus-cxx-bridge.h:834-886 | after any pushes: exactly the pushed elements, the end marker inside the memory, and at most twice as many elements copied as pushed |
| GrowingTable.Dispatch | src/gdbus/object.c:607-652 | with entries the loop that stops at the end marker stays in bounds and finds the first served entry with name and signature, or none; without entries it reads through a NULL pointer |
| PrintfDyn.PrintfDyn | src/gdbus/object.c:1058-1092 | ends with the whole text in a buffer that is large enough, with at most two calls for a C99 library and doubling otherwise |
| InfoRequest.NonInterference | src/syncevolution.cpp:1014-1035 | in any interleaving an identifier gets the state and replies that its own signals alone would have caused |
| InfoRequest.RepliesBetweenDone | src/syncevolution.cpp:1078-1100 | between two "done" signals: "working" is sent if and only if there is a "request", then "response" with what the user entered if and only if a "waiting" follows, each once and nothing else, whatever other identifiers do |
| Strings.LessMeans | src/gdbusxx/gdbus-cxx-bridge.h:1208-1224 | the order of std::string: at the first difference the smaller octet or the shorter text comes first |
| Utf8.Sanitize | src/gdbusxx/gdbus-cxx-bridge.h:1545-1584 | the loop with `start`, `invalid` and `buffer` computes the character-by-character repair |
| Utf8.RepairIdempotent | src/gdbusxx/gdbus-cxx-bridge.h:1562-1581 | repairing twice is repairing once |
| Utf8.CharLenAcceptsEncodings | src/gdbusxx/gdbus-cxx-bridge.h:1562 | validation accepts the encoding of every scalar value but NUL |
| Utf8.CharLenOnlyEncodings | src/gdbusxx/gdbus-cxx-bridge.h:1562 | validation accepts nothing else: no overlong form, surrogate or value above U+10FFFF |
| Utf8.ValidPrefixIsValid | src/gdbusxx/gdbus-cxx-bridge.h:1562 | the text before the reported offset is valid |
| Utf8.ValidPrefixIsLongest | src/gdbusxx/gdbus-cxx-bridge.h:1562 | no longer prefix is valid |
| Utf8.ValidIffWholePrefix | src/gdbusxx/gdbus-cxx-bridge.h:1562 | validation succeeds if and only if the reported offset is the end |
| Wire.PrefixFree | src/gdbusxx/gdbus-cxx-bridge.h:1981-2005 | signatures form a prefix-free code |
| Wire.SignatureEquality | src/gdbusxx/gdbus-cxx-bridge.h:2173-2187 | equal type strings, equal types, and conversely |
| Wire.TypeCodes | src/gdbusxx/gdbus-cxx-bridge.h:1396-1634 | the codes of the D-Bus Specification |
| Wire.HoldsByWidth | src/gdbusxx/gdbus-cxx-bridge.h:1345-1353 | integers have the range of their width |
| Marshal.GetTypeIsSignature | src/gdbusxx/gdbus-cxx-bridge.h:1743-1753 | getType of every C++ type is the signature of the type it travels as |
| Marshal.GetTypeDecides | src/gdbusxx/gdbus-cxx-bridge.h:2145-2148 | two C++ types have equal type strings if and only if they have the same D-Bus type |
| Marshal.AppendTyped | src/gdbusxx/gdbus-cxx-bridge.h:2022-2036 | what append builds has exactly the declared type and is a value GVariant can hold |
| Marshal.Select | src/gdbusxx/gdbus-cxx-bridge.h:2205-2225 | the first alternative whose type string is that of the content, none if there is none |
| RoundTrip.AppendDefined | src/gdbusxx/gdbus-cxx-bridge.h:1624-1630 | append throws if and only if some object path in the value is invalid |
| RoundTrip.NormIdentity | src/gdbusxx/gdbus-cxx-bridge.h:1545-1584 | a value survives the transport unchanged if and only if all its text is valid UTF-8 and no path contains NUL, map keys included |
| RoundTrip.ReceivedIsNorm | src/gdbusxx/gdbus-cxx-bridge.h:2191-2227 | what Received says is the value with repaired text if and only if no variant that arrives has an earlier alternative of the same D-Bus type |
| RoundTrip.DistinctTypesSuffice | src/gdbusxx/gdbus-cxx-bridge.h:2173-2187 | it is, for every value, if the alternatives of each variant have pairwise distinct signatures |
| RoundTrip.SignedCharBecomesUnsigned | src/gdbusxx/gdbus-cxx-bridge.h:1411-1421 | witness: -1 in variant<uint8_t, int8_t> is read back as 255 in the first alternative |
| RoundTrip.NestedSignedCharBecomesUnsigned | src/gdbusxx/gdbus-cxx-bridge.h:2130-2156 | witness: it is enough that an inner variant is confused |
| RoundTrip.ArrivedMap | src/gdbusxx/gdbus-cxx-bridge.h:2011-2019 | the map that is read is sorted, and each repaired key has the value of the first pair that has it |
| RoundTrip.CollidingKeys | src/gdbusxx/gdbus-cxx-bridge.h:2011-2019 | witness: a map of two entries that arrives with one |
| RoundTrip.DefaultExact | src/gdbusxx/gdbus-cxx-bridge.h:2145-2150 | a default-constructed variable is the one blank value of its type: zero, empty, first alternative |
| RoundTrip.UnrecognisedLeavesDefault | src/gdbusxx/gdbus-cxx-bridge.h:2222-2225 | content of an unexpected type is read without exception and leaves that value |
| RoundTrip.ExampleMessage | src/gdbusxx/gdbus-cxx-bridge.h:1743-2127 | witness: one message in full, with its type strings |
| Builder.VariantBuilder.Open | src/gdbusxx/gdbus-cxx-bridge.h:1774 | a container of the type that the string names is opened |
| Builder.VariantBuilder.Close | src/gdbusxx/gdbus-cxx-bridge.h:1777 | the innermost container becomes a value of the one around it |
| Builder.ReadValue | src/gdbusxx/gdbus-cxx-bridge.h:2133-2155 | with iterators that are advanced: throws if and only if Get does, otherwise the same value and the same remaining iterator |
| Builder.ReadItems | src/gdbusxx/gdbus-cxx-bridge.h:2060-2076 | the counting loop over the children reads all of them in order |
| Builder.ReadDict | src/gdbusxx/gdbus-cxx-bridge.h:2000-2020 | the loop over the children inserts them into the map in order |
| Builder.WriteValue | src/gdbusxx/gdbus-cxx-bridge.h:2121-2126 | open, append the content, close: exactly one value is added to the container that was open before |
| Builder.WriteItems | src/gdbusxx/gdbus-cxx-bridge.h:2078-2089 | the loop adds one value for each item, in order |
| Builder.WriteEntries | src/gdbusxx/gdbus-cxx-bridge.h:2022-2036 | the loop adds one dict entry for each entry of the map, in key order |
| RecursiveVariant.BothShow | src/gdbusxx/gdbus-cxx-bridge.h:2353-2356 | all tuples and all boxed variants are two of these ways |
| RecursiveVariant.TuplesMeanVariants | src/gdbusxx/gdbus-cxx-bridge.h:2353-2356 | both are decoded to the list they were made from, and leave the rest |
| RecursiveVariant.ReadNested | src/gdbusxx/gdbus-cxx-bridge.h:2346-2398 | with the copied iterator: throws if and only if Decode does, otherwise its value and remaining iterator |
| RecursiveVariant.ReadLockstep | src/gdbusxx/gdbus-cxx-bridge.h:2376-2390 | the tuple branch, with a second iterator running ahead, decodes every child and stops in time |
| RemoteCall.InArgsAreTypes | src/gdbusxx/gdbus-cxx-bridge.h:4425-4432 | the declared in-arguments are the types of the input parameters, in order; outputs and pseudo-parameters add none |
| RemoteCall.CheckedBody | src/gdbusxx/gdbus-cxx-bridge.h:4425-4446 | a body with the declared signature has exactly the declared types |
| RemoteCall.ReplyAppends | src/gdbusxx/gdbus-cxx-bridge.h:4414-4415 | the reply carries the return value followed by the outputs |
| RemoteCall.DeclaredArgsAreTypes | src/gdbusxx/gdbus-cxx-bridge.h:4434-4438 | the declared out-arguments are the return value, the writable references and what Result objects deliver, in order |
| RemoteCall.RequestType | src/gdbusxx/gdbus-cxx-bridge.h:5016-5023 | what a caller with matching types appends has exactly the declared in-signature |
| RemoteCall.OtherTypesAreRefused | src/gdbusxx/gdbus-cxx-bridge.h:4425-4446 | a call with any other argument types is an error before the method runs |
| RemoteCall.ExtractAfterAppend | src/gdbusxx/gdbus-cxx-bridge.h:577-606 | the function sees what each argument becomes, in its place, and the message attributes |
| RemoteCall.DemarshalAfterReply | src/gdbusxx/gdbus-cxx-bridge.h:4824-4830 | the caller reads from the reply what the results become |
| RemoteCall.ResultTypeAt | src/gdbusxx/gdbus-cxx-bridge.h:4434-4438 | the return value comes first, then each writable reference in its place |
| AsyncCall.TransmittedCount | src/gdbusxx/gdbus-cxx-bridge.h:3072-3100 | the messages with contents are as many as the reply protocol counts |
| AsyncCall.FirstTransmitted | src/gdbusxx/gdbus-cxx-bridge.h:2708-2731 | the first message of a call is the first answer of the function |
| AsyncCall.AnsweredLater | src/gdbusxx/gdbus-cxx-bridge.h:2764-2780 | if any number of copies is kept and done is called on one after the return, the caller gets these results |
| MethodReply.Invocation.Release | src/gdbusxx/gdbus-cxx-bridge.h:2708-2719 | the destructor answers exactly if the last reference is gone, the object has the duty and no reply was sent |
| MethodReply.Invocation.PerformSteps | src/gdbusxx/gdbus-cxx-bridge.h:2726-2731 | copies, drops, done and failed in the order of the application |
| MethodReply.Invocation.LeaveScope | src/gdbusxx/gdbus-cxx-bridge.h:3084-3093 | guards are destroyed in reverse order; each gives its object the duty to reply if `msg` was not cleared |
| MethodReply.Invocation.CallMethodFunction | src/gdbusxx/gdbus-cxx-bridge.h:4462-4488 | all ways out of methodFunction, with both levels of catch |
| MethodReply.Invocation.Handle | src/gdbusxx/gdbus-cxx-bridge.h:1073-1141 | the handler answers unknown methods and sends what methodFunction returned |
| MethodReply.ApplyKeepsInv | src/gdbusxx/gdbus-cxx-bridge.h:2681-2739 | every step of the application keeps the invariant of the Result objects |
| MethodReply.DropGuardsKeepsInv | src/gdbusxx/gdbus-cxx-bridge.h:3079-3100 | after the guards are gone, all objects have the duty to reply or none has it, and a duty without reference has been fulfilled |
| MethodReply.AfterHandler | src/gdbusxx/gdbus-cxx-bridge.h:1073-1141 | when the handler returns: it sent one reply itself, or none and the Result objects have the duty |
| MethodReply.RunIsComplete | src/gdbusxx/gdbus-cxx-bridge.h:2681-2739 | on every complete run the invariant holds, who has to answer is decided by the call alone, and the replies of the application are its done and failed calls |
| MethodReply.TwoResultsReplyTwice | src/gdbusxx/gdbus-cxx-bridge.h:3079-3100 | witness: two Result objects that are dropped send two replies |
| MethodReply.HeldByCounting | src/gdbusxx/gdbus-cxx-bridge.h:3079-3100 | over any possible steps the references to an object grow by the copies that were made and shrink by those that were given up |
| MethodReply.KeptAndAnswered | src/gdbusxx/gdbus-cxx-bridge.h:2681-2739 | witness: any number of copies is kept, answered later and given up |
| MethodMap.KeyInjective | src/gdbusxx/gdbus-cxx-bridge.h:1064-1071 | for valid object paths, equal keys mean equal path and equal method |
| MethodMap.PrefixMeansPath | src/gdbusxx/gdbus-cxx-bridge.h:1212-1215 | a key starts with the prefix of a path if and only if it was made for that path |
| MethodMap.WithoutLookup | src/gdbusxx/gdbus-cxx-bridge.h:1225-1227 | after the erase, keys of the path are not found and all others are found as before |
| MethodMap.Methods.Add | src/gdbusxx/gdbus-cxx-bridge.h:1237-1274 | exactly the new method is added, if there was none with its key |
| MethodMap.Methods.Find | src/gdbusxx/gdbus-cxx-bridge.h:1082-1084 | the function of an entry with this key, or none if no entry has it |
| ObjectPath.BodyIsValid | src/gdbusxx/gdbus-cxx-bridge.h:1624-1630 | non-empty lists of valid elements are written as valid object paths |
| ObjectPath.RenderInjective | src/gdbusxx/gdbus-cxx-bridge.h:5330 | a path text stands for one list of elements only |
| ObjectPath.BodyPrefix | src/gdbusxx/gdbus-cxx-bridge.h:5325-5329 | a path text and a slash start another path text if and only if the elements do |
| ObjectPath.DirnameDropsLast | src/gdbus/object.c:284 | g_path_get_dirname of a path is the path without its last element |
| ObjectPath.ElementsOf | src/gdbusxx/gdbus-cxx-bridge.h:1624-1630 | every valid object path is the text of a list of elements |
| ObjectPath.ExamplePaths | src/gdbusxx/gdbus-cxx-bridge.h:1626-1628 | witness: texts that are accepted as object paths and texts that are not |
| SignalFilter.PrefixMatchIsDescendant | src/gdbusxx/gdbus-cxx-bridge.h:5319-5331 | the test on strings accepts exactly the strict descendants, element by element |
| SignalFilter.RootMatchesNothing | src/gdbusxx/gdbus-cxx-bridge.h:5274 | why the filter must not end in a slash: "/" matches no path |
| SignalFilter.Criteria.Add | src/gdbusxx/gdbus-cxx-bridge.h:5343-5354 | a criterion is added at the end unless its value is empty |
| SignalFilter.BuildRule | src/gdbusxx/gdbus-cxx-bridge.h:5430-5437 | the rule for type, interface, member and path_namespace, empty ones left out |
| SignalFilter.RuleRoundTrip | src/gdbusxx/gdbus-cxx-bridge.h:5341-5357 | the bus reads exactly the criteria that were added from the rule |
| SignalFilter.RuleMeaning | src/gdbusxx/gdbus-cxx-bridge.h:5430-5437 | which signals the bus delivers for the rule |
| SignalFilter.Criteria.CreateMatchRule | src/gdbusxx/gdbus-cxx-bridge.h:5356 | the loop joins the criteria with commas, so that RuleRoundTrip reads them back |
| SignalFilter.OwnPathIsDropped | src/gdbusxx/gdbus-cxx-bridge.h:5319-5331 | witness: a signal of the filter path itself is delivered by the bus and dropped locally |
| SignalFilter.WithoutPrefixOnPaths | src/gdbusxx/gdbus-cxx-bridge.h:5319-5331 | without the flag exactly the signals of the filter path are accepted, or those of all paths if there is none |
| SignalFilter.RuleIsForSignals | src/gdbusxx/gdbus-cxx-bridge.h:5433 | the rule always asks for signals only |
| ObjectRegistry.NearestAncestor | src/gdbus/object.c:274-304 | the recursion of update_parent ends at the longest registered path above the object, or nowhere if there is none |
| ObjectRegistry.ParentIsDirname | src/gdbus/object.c:284 | the parent of a path is its directory name |
| ObjectRegistry.Registry.UpdateParent | src/gdbus/object.c:274-304 | if at most the nearest ancestor was out of date, all caches are up to date afterwards |
| ObjectRegistry.Registry.CreateObject | src/gdbus/object.c:734-749 | a new object; at most the nearest ancestor is out of date now |
| ObjectRegistry.Registry.RegisterObject | src/gdbus/object.c:697-760 | the object exists with one more reference, and all caches are up to date |
| ObjectRegistry.Registry.RegisterInterface | src/gdbus/object.c:950-997 | all caches agree with fresh documents; the interface is added, or refused because its name is taken |
| ObjectRegistry.Registry.DeleteObject | src/gdbus/object.c:796-801 | the object leaves the tree and the list; at most the nearest ancestor is out of date now |
| ObjectRegistry.Registry.UnregisterObject | src/gdbus/object.c:772-817 | one reference less, the path is gone with the last one, and all caches are up to date |
| ObjectRegistry.Registry.UnregisterInterface | src/gdbus/object.c:1022-1056 | all caches agree with fresh documents; the interface is removed, or nothing happens if there is none |
| ObjectRegistry.RefusedTwice | src/gdbus/object.c:964-975 | witness: a path that stays registered without interfaces |
| ObjectRegistry.ListRegisteredMeans | src/gdbus/object.c:258-264 | a child is listed if and only if it leads to a registered path |
| WatchList.ConnectionWatches.Remove | src/gdbus/watch.c:287-300 | exactly the watch with the identifier is removed; without one nothing changes |
| WatchList.ConnectionWatches.DisconnectFunction | src/gdbus/watch.c:397-409 | the watch is removed once, whether or not the application removed it before |
| WatchList.ConnectionWatches.Step | src/gdbus/watch.c:117-124 | one watch gets the callback for the event, if it has one; reads of its freed memory are counted |
| WatchList.PerformOn | src/gdbus/watch.c:91-331 | one action on the linked list has the effect of the action on values |
| WatchList.RunKeepsInv | src/gdbus/watch.c:242-244 | in every reachable state watches stand in the order of their identifiers, and no identifier is told before it was issued |
| WatchList.ConnectRemovesItself | src/gdbus/watch.c:120-123 | witness: a connect callback that removes its watch makes the walk read freed memory |
| WatchList.OnlyWatchesAreTold | src/gdbus/watch.c:112-125 | no identifier is told that belongs to no watch |
| WatchRegistry.AddKeepsInv | src/gdbus/watch.c:198-262 | adding, successful or not: identifiers stay distinct and below next_id, a success takes one reference and returns a new identifier, a failure none |
| WatchRegistry.RemoveKeepsInv | src/gdbus/watch.c:273-331 | a removal succeeds if and only if the identifier is in use on the connection, and gives one reference back |
| WatchRegistry.Registry.AddWatch | src/gdbus/watch.c:474-532 | the new state and identifier of the specification, with the error path |
| WatchRegistry.Registry.RemoveWatch | src/gdbus/watch.c:273-331 | searching both lists, and dropping the data with the last entry |
| WatchRegistry.Registry.RemoveAllWatches | src/gdbus/watch.c:339-395 | the two loops give back one reference for each entry |
| WatchRegistry.RemoveAllKeepsInv | src/gdbus/watch.c:339-395 | the count goes down by exactly the share of the connection; a pointer to freed data is left exactly if there was data and the slot was allocated |
| WatchRegistry.OnlyAdded | src/gdbus/watch.c:209-248 | adding succeeds unless something it needs fails, and puts exactly the identifier it returns into the list of the right kind |
| WatchRegistry.OnlyRemoved | src/gdbus/watch.c:287-314 | exactly the identifier that is removed is gone |
| WatchRegistry.AddedCanBeRemoved | src/gdbus/watch.c:198-331 | what was added can be removed, which restores identifiers and count |
| PeerWatch.PeerWatch.HandleDisconnected | src/gdbusxx/gdbus-cxx-bridge.cpp:412-420 | fires once and runs the callback that is installed |
| PeerWatch.PeerWatch.HandleSetCallback | src/gdbusxx/gdbus-cxx-bridge.cpp:431-437 | replaces the callback, and runs the new one at once if the watch has fired |
| PeerWatch.PeerWatch.HandleNameOwnerChanged | src/gdbusxx/gdbus-cxx-bridge.cpp:389-410 | only the disappearance of the own peer counts, and only once |
| PeerWatch.StepKeepsDisconnect | src/gdbusxx/gdbus-cxx-bridge.cpp:446-493 | every event keeps: once the peer is gone the watch knows, or a signal or an answer that says so is on its way |
| PeerWatch.StepKeepsCallbacks | src/gdbusxx/gdbus-cxx-bridge.cpp:412-437 | every event keeps: the current callback has run if and only if the watch has fired, and none ran twice |
| PeerWatch.NoLostDisconnect | src/gdbusxx/gdbus-cxx-bridge.cpp:439-493 | for every interleaving: when activation has returned and signals are drained, the watch has fired if and only if the peer is gone |
| PeerWatch.RunOn | src/gdbusxx/gdbus-cxx-bridge.cpp:389-493 | any interleaving on the object has the effect of the run on values |
| PeerWatch.ActivationCompletes | src/gdbusxx/gdbus-cxx-bridge.cpp:439-493 | the steps of activation lead to an active watch, which has fired if the peer was gone before |
| PeerWatch.QueueDrains | src/gdbusxx/gdbus-cxx-bridge.cpp:389-410 | delivering the signals that are on their way leaves none |
| GrowingTable.DBusVector.PushBack | src/gdbus/gdbus-cxx-bridge.h:872-885 | the element is added at the end, with the end marker behind it in bounds |
| GrowingTable.AllServed | src/gdbus/object.c:607-608 | every pushed entry is served if and only if all have a name and a function |
| PrintfDyn.Vsnprintf | src/gdbus/object.c:1083-1087 | at most n characters are written; the text is complete exactly if it fits |
| InfoRequest.RemoteSession.Process | src/syncevolution.cpp:1078-1100 | the state machine of one request, with its replies |
| InfoRequest.RemoteSession.HandleSignal | src/syncevolution.cpp:1014-1035 | only signals for this session and type are handled; exactly the request of the identifier changes |
| InfoRequest.OwnSignals | src/syncevolution.cpp:1022-1034 | only signals of a session that runs a sync, for this session and about a password, count |
| InfoRequest.CaseDoesNotMatter | src/syncevolution.cpp:1022-1024 | witness: texts are compared without regard to case |

## Left out

Narrower than the code, and why:

- RoundTrip.GetAfterAppend: variants have one to three alternatives, because the code for four and five is declared on a variant of three (src/gdbusxx/gdbus-cxx-bridge.h:2232-2233, 2275-2276).
- RemoteCall.RemoteCallIsLocalCall: exceptions are one error text, not the mapping from exception classes to D-Bus names; methods with a Result parameter are AsyncCall.AsyncCallIsLocalCall.
- AsyncCall.AsyncCallIsLocalCall: one Result parameter; with several, MethodReply.ReplyCount says how many replies there are, but not which of them comes first.
- MethodReply.ExactlyOneReply: sending is assumed to succeed; a send that fails throws after the reply was marked as sent.
- ObjectRegistry.Conservation: allocations succeed, and libdbus registers every path it is asked for.
- WatchList.ConnectionWatches.OwnerFunction: a callback ends its own watch or none and adds none; other removals and additions during the walk are not modelled, and removals do not look at the destroy functions.
- WatchRegistry.Conservation: the number of connections is fixed, next_id does not wrap around, and a connection is not used after all its watches were removed.
- PeerWatch.NoLostDisconnect: the name is a unique one, which never comes back; for an activation that throws nothing is promised.
- PrintfDyn.PrintfDyn: allocations succeed, lengths fit into an int, and the formatter fails only because of truncation.
- GrowingTable.Dispatch: what the selected function does, and the flags that decide what happens to its reply, are not modelled.
- GrowingTable.DBusVector.Grow: allocation succeeds, and realloc always moves.
- SignalFilter.RuleMeaning: path, interface and member contain no single quotes, which no valid name does; the bus's reader knows the quoted form only.

How things outside the code appear:

- GVariant is a tree of values, a GVariantIter the sequence of remaining values, a GDBusMessage its body and four attributes. Doubles are their 64 bits. Strings read from a message contain no NUL, as GVariant guarantees.
- GIO compares the body of a call with the declared arguments before it calls the handler; output parameters are not read by the function before it sets them; a pseudo-parameter that is a Watch is extracted if the message has a sender.
- The order of std::map is that of the key type; other comparison functions are not modelled.
- std::pair, boost::tuple and dbus_struct_traits are one list of fields; the templates for each number of parameters are one list of parameters.
- The introspection document is a value with the interfaces in order and the names of the children as a set, not a text; libdbus lists the next path elements of registered descendants.
- The data slot of libdbus keeps its contents when its count returns to zero and it is allocated again.
- The answer of the user to a password prompt is part of the signal that causes the prompt; the text of the prompt is left out.
- The bus processes the messages of one connection in order: it installs the match rule before it answers NameHasOwner.

Not modelled at all:

- DBusArray, which copies raw memory.
- The libdbus versions of the marshaller and of the sanitiser: they do the same with another iterator.
- The automatic removal of signal handlers that return FALSE, where comment and code differ (src/gdbus/watch.c:64-89, 469-470).
- EmitSignal, properties and the Introspect, Get, Set and GetAll methods: straight calls of the marshaller.
- Unregistering of a whole path by libdbus (src/gdbus/object.c:655-680) and the destroy functions of interfaces.
- Connecting to the bus, the main loop, sockets, child processes and bus names.
- The wait loops of RemoteDBusServer::execute, whose counter is shared by unrelated replies.
- The user interface, the sync engine, the configuration layer and the backends.
