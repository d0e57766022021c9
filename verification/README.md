# Verification of openshift-sdn

A Dafny 4.11 model of the parts of openshift-sdn where a small mistake is hard to see, and proofs about it.
`dafny verify dfyconfig.toml` checks everything.

* **The D-Bus wire codec** (`Signature`, `Values`, `Encoder`, `Agreement`, `Decoder`, `RoundTrip`, `Progress`, `Names`, `Message`).
  The encoder writes the elements of arrays and dicts through an encoder that starts again at position 0. The model
  keeps that, gives the marshalling of the D-Bus Specification as an independent definition, and proves for which values
  the two agree, that the decoder inverts the encoder on these values, when decoding makes progress, and that messages
  survive.
* **The text form of variants** (`TextLexer`, `TextParser`, `TextPrinter`, `TextLexing`, `TextRoundTrip`): what
  `ParseVariant` makes of the `String` of every value in scope, and exactly which values come back.
* **The OpenFlow pipeline** (`OpenFlow`, `Pipeline`, `PipelineRuns`, `Isolation`, `Bridge`, `NodeRules`, `SubnetWatch`).
  A switch chooses any match of the highest priority; the flows are shown to have one verdict on every packet whatever it
  chooses, to isolate tenants over one or two nodes, and to be kept up to date by the commands that the node runs.
* **The master's allocators** (`Vnids`, `Bits`, `SubnetAllocator`, `Subnets`): virtual network ids and node subnets, each
  kept in the registry, in memory and in an allocator that have to agree although requests fail.
* **The endpoint filter of the proxy** (`Proxy`).

Code that changes state step by step is a class or a method with loops (`Encoder`, `Decoder`, `VarLexer`, `VarParser`,
`Bridge`, `Transaction`, `Watcher`, `NetIDAllocator`, `VnidMap`, `Master`, `SubnetAllocator`, `ProxyPlugin`). Each is
proved equal to a function of its inputs (`Enc`, `DecodeOne`, `Lex`, `MakeNode`, `Applied`, `Assigned`, `FirstFree`,
`Tracked`, ...), and the results are proved about these functions. Loops of the source that never end are an outcome of
the model (`Stuck`, `Endless`), at which its loops stop,
and so is a panic that nothing recovers from (`Panics`, `Panicked`).

A byte is a character below 256 in the wire codec, so that signatures can be written as literals; in the text form a
string is a sequence of Unicode characters. IP addresses are numbers. Requests to the registry, the validation of
addresses and OVS commands may fail, and events carry which of them do.

## What came out false

* Arrays whose elements have parts aligned to 8 can be misplaced (`RoundTrip.UnstableDoesNotArrive`;
  `Agreement.ArrayIsWireFormatExactly` says when), although the comment at encoder.go:44-45 promises alignment.
* `Signature.Single` answers the opposite (`Signature.SingleMeetsItsDocumentationExactly`).
* Decoding an array of empty structs does not end (`Progress.HollowArrayStuckExactly`, `Progress.EmptyStructsNeverEnd`),
  nor does lexing a numeral that is no digit (`TextLexer.EndlessExactly`).
* `ParseSignature` panics on an empty dict body (`Signature.EmptyDictPanics`), and `ParseVariant` with it
  (`TextParser.AnnotatedEmptyDictPanics`).
* `EncodeTo` sends a message whose body does not encode (`Messages.BodyIsSentAnyway`, `Messages.RefusedIsValid`).
* If a match without a protocol loses its address, deleting one host subnet deletes the rules of all
  (`NodeRules.NormalisedDeletionEmptiesTable8`, `NodeRules.RunTracks`).
* `ParseVariant` does not read every `String` back (`TextRoundTrip.StringRoundTripExactly`).
* The map in `watchSubnets` keeps a host whose rules were deleted (`SubnetWatch.RepairIsSkipped`).
* A failed deletion of a NetNamespace leaks its id (`Vnids.FailedDeletionLeaks`), and one of a HostSubnet allows a second
  node the same subnet (`Subnets.FailedDeletionOverlaps`).

## Model

| member | source | states |
|---|---|---|
| Bytes.GetPut | Godeps/_workspace/src/github.com/godbus/dbus/encoder.go:38-42 | reading a number of a given size back in either byte order gives the number that was written |
| Signature.FindMatching | Godeps/_workspace/src/github.com/godbus/dbus/sig.go:219-232 | the index found is where the bracket count first returns to 0, -1 if it never does |
| Signature.ValidSingle | Godeps/_workspace/src/github.com/godbus/dbus/sig.go:169-217 | the scan with its loops leaves the remainder, or reports the error, of the recursive scan, with the same depth limit and the same handling of empty structs; SliceOutOfRange is the panic on an empty dict body |
| Signature.ParseSignature | Godeps/_workspace/src/github.com/godbus/dbus/sig.go:110-126 | a signature is accepted if and only if it is a sequence of complete types of at most 255 bytes, and otherwise the error, or the panic on an empty dict body, is that of its scan |
| Signature.ScanPrint | Godeps/_workspace/src/github.com/godbus/dbus/sig.go:169-217 | scanning the printed form of any type nested within the limit, followed by any text, leaves exactly that text |
| Signature.ScanPrintAll | Godeps/_workspace/src/github.com/godbus/dbus/sig.go:110-126 | a printed sequence of such types is scanned completely |
| Signature.ScanAcceptsExactlyPrinted | Godeps/_workspace/src/github.com/godbus/dbus/sig.go:169-217 | the scanner accepts a string at a depth, with a remainder, if and only if the string is the printed form of a type that fits in the depth and the remainder |
| Signature.PrintPrefixFree | Godeps/_workspace/src/github.com/godbus/dbus/sig.go:49-106 | if two printed types start the same text, the types and what follows them are equal |
| Signature.PrintAllInjective | Godeps/_workspace/src/github.com/godbus/dbus/sig.go:49-106 | a signature determines its sequence of types |
| Signature.TypeForPrint | Godeps/_workspace/src/github.com/godbus/dbus/sig.go:236-257 | typeFor inverts getSignature, whatever follows the printed type |
| Signature.PanicHasEmptyDict | Godeps/_workspace/src/github.com/godbus/dbus/sig.go:180-191 | the scan panics only on a string with an empty dict body in it |
| Signature.EmptyDictPanics | Godeps/_workspace/src/github.com/godbus/dbus/sig.go:180-191 | and it does panic on an empty dict body behind any complete types, whatever follows |
| Signature.SingleMeetsItsDocumentationExactly | Godeps/_workspace/src/github.com/godbus/dbus/sig.go:143-147 | Signature.Single, which should say whether the signature is one complete type, says so if and only if more text follows a complete type, because its error comparison is inverted; it denies that i is one and says that the empty signature is |
| Values.MarshalShift | Godeps/_workspace/src/github.com/godbus/dbus/dbus.go:171-196 | marshalling a value 8 bytes further on, or 4 bytes further on if no part of it is aligned to 8, gives the same bytes |
| Values.MarshalRealigns | Godeps/_workspace/src/github.com/godbus/dbus/dbus.go:171-196 | a value with a part aligned to 8 changes its length by a multiple of 8 less the shift when it is moved by a multiple of 4: the padding absorbs the shift |
| Encoding.Encoder.Align | Godeps/_workspace/src/github.com/godbus/dbus/encoder.go:25-35 | the zero bytes written bring the position to the next multiple |
| Encoding.Encoder.EncodeScalar | Godeps/_workspace/src/github.com/godbus/dbus/encoder.go:60-103 | a basic value is written as the wire format has it at the encoder's position |
| Encoding.Encoder.Encode | Godeps/_workspace/src/github.com/godbus/dbus/encoder.go:56-179 | what is written, also before a panic, and whether there is a panic, are those of the encoding that restarts at position 0 inside arrays and dicts; the position always counts the bytes written |
| Encoding.Encoder.EncodeList | Godeps/_workspace/src/github.com/godbus/dbus/encoder.go:107-123 | an array or dict goes through an encoder of its own from position 0, then its length, padding and bytes are written; nothing is written if its contents panic |
| Encoding.Encoder.EncodeAll | Godeps/_workspace/src/github.com/godbus/dbus/encoder.go:46-54 | the values of a list are written one after the other up to the first that panics |
| Encoding.Encoder.EncodeEntries | Godeps/_workspace/src/github.com/godbus/dbus/encoder.go:152-175 | the entries of a dict are written as structs of key and value, at two levels of nesting |
| Encoding.AlignedFirst | Godeps/_workspace/src/github.com/godbus/dbus/encoder.go:58-59 | aligning before every value changes nothing but the padding in front |
| Agreement.EncodesExactly | Godeps/_workspace/src/github.com/godbus/dbus/encoder.go:107-161 | encoding succeeds if and only if no container is nested too deep and no dict has a key type that cannot be sent, wherever the value stands |
| Agreement.StableIsWireFormat | Godeps/_workspace/src/github.com/godbus/dbus/encoder.go:107-175 | a value is written as a marshaller that counts from the start of the message would write it, if every array in it starts at a multiple of 8 or has no part aligned to 8 |
| Agreement.AlignStableIsStable | Godeps/_workspace/src/github.com/godbus/dbus/encoder.go:107-175 | if no array of elements aligned below 8 has a part aligned to 8 within its elements, also inside variants, this is so at every position |
| Agreement.EncoderRefinesMarshaller | Godeps/_workspace/src/github.com/godbus/dbus/encoder.go:46-179 | on all such lists of values the encoder writes byte for byte what the section "Marshaling (Wire Format)" of the D-Bus Specification requires |
| Agreement.ArrayIsWireFormatExactly | Godeps/_workspace/src/github.com/godbus/dbus/encoder.go:107-123 | an array whose elements are right in a frame of their own is written in the wire format if and only if its elements start at a multiple of 8 or have no part aligned to 8 |
| Decoding.Decoder.Align | Godeps/_workspace/src/github.com/godbus/dbus/decoder.go:25-35 | the bytes up to the next multiple are consumed, and the position moves by exactly the bytes read |
| Decoding.Decoder.DecodeScalar | Godeps/_workspace/src/github.com/godbus/dbus/decoder.go:69-143 | a basic value is read, or the same error found, as the wire format has it; a boolean other than 0 and 1 is an error |
| Decoding.Decoder.Decode | Godeps/_workspace/src/github.com/godbus/dbus/decoder.go:67-221 | value, rest and position, or the error, are those of the recursive decoder; an array loop that would never end is reported as such |
| Decoding.Decoder.DecodeAll | Godeps/_workspace/src/github.com/godbus/dbus/decoder.go:43-65 | the values of a signature are decoded one complete type at a time |
| Decoding.Decoder.ReadElems | Godeps/_workspace/src/github.com/godbus/dbus/decoder.go:196-199 | elements are appended until the position reaches the announced end, and the loop is stuck if and only if an element takes no byte |
| Decoding.Decoder.ReadEntries | Godeps/_workspace/src/github.com/godbus/dbus/decoder.go:176-185 | entries are read until the announced end, each from a multiple of 8, a repeated key replacing the earlier value |
| Decoding.DecodeOne | Godeps/_workspace/src/github.com/godbus/dbus/decoder.go:67-221 | whatever the input, no byte is counted twice or left out: the position has moved by exactly the length consumed; a basic value consumes at least one byte |
| RoundTrip.DecodesMarshalled | Godeps/_workspace/src/github.com/godbus/dbus/decoder.go:67-221 | decoding the wire format of a value at any position gives the value, consumes exactly its bytes and leaves what follows |
| RoundTrip.DecodesFields | Godeps/_workspace/src/github.com/godbus/dbus/decoder.go:43-65 | the same for a list of values and their signature |
| RoundTrip.WireRoundTrip | Godeps/_workspace/src/github.com/godbus/dbus/encoder.go:46-179 | what the encoder writes for a list of values, each stable where it stands, decodes to exactly those values with every byte consumed, in both byte orders and from any position |
| RoundTrip.AlignStableRoundTrip | Godeps/_workspace/src/github.com/godbus/dbus/decoder.go:43-221 | in particular every align-stable list of values within the depth and length limits survives encoding and decoding |
| RoundTrip.UnstableDoesNotArrive | Godeps/_workspace/src/github.com/godbus/dbus/encoder.go:107-123 | an array that holds one empty array of int64 is accepted by the encoder, but its bytes do not decode |
| Progress.DecodeMovesExactly | Godeps/_workspace/src/github.com/godbus/dbus/decoder.go:67-221 | a complete type that decodes takes no byte if and only if it is made of empty structs only and stands at a multiple of 8 |
| Progress.DecodingEnds | Godeps/_workspace/src/github.com/godbus/dbus/decoder.go:43-221 | decoding ends on every input if no signature, given or read from a variant, contains an empty struct |
| Progress.DecodingEndsWithoutTheText | Godeps/_workspace/src/github.com/godbus/dbus/decoder.go:43-221 | in particular if the text () is neither in the signature nor in the input |
| Progress.LeavesTheEnd | Godeps/_workspace/src/github.com/godbus/dbus/decoder.go:43-65 | whatever the input, what decoding leaves is its end, and the position has moved by exactly the bytes consumed |
| Progress.HollowDecodesExactly | Godeps/_workspace/src/github.com/godbus/dbus/decoder.go:201-221 | a value of empty structs, at a multiple of 8, takes no byte and decodes if and only if its structs are not nested too deep |
| Progress.HollowArrayStuckExactly | Godeps/_workspace/src/github.com/godbus/dbus/decoder.go:187-200 | decoding an array whose element type is made of empty structs never ends if and only if the input holds a length other than 0 and the padding behind it and the structs are not nested too deep |
| Progress.EmptyStructsNeverEnd | Godeps/_workspace/src/github.com/godbus/dbus/decoder.go:187-200 | an array of empty structs with the length 1 is such an input |
| Names.CheckPath | Godeps/_workspace/src/github.com/godbus/dbus/dbus.go:134-162 | the loops accept exactly the valid object paths |
| Names.CheckInterface | Godeps/_workspace/src/github.com/godbus/dbus/dbus.go:210-233 | the loops accept exactly the valid interface names |
| Names.CheckMember | Godeps/_workspace/src/github.com/godbus/dbus/dbus.go:235-253 | the loop accepts exactly the valid member names |
| Names.PathGrammar | Godeps/_workspace/src/github.com/godbus/dbus/dbus.go:134-162 | a path is valid if and only if it is the root or a sequence of names with a slash before each |
| Names.InterfaceGrammar | Godeps/_workspace/src/github.com/godbus/dbus/dbus.go:210-233 | an interface name is valid if and only if it has at most 255 bytes and is two or more words, none starting with a digit, with dots between them |
| Messages.CheckMessage | Godeps/_workspace/src/github.com/godbus/dbus/message.go:248-296 | the loops over headers and required fields accept exactly the valid messages |
| Messages.EncodeTo | Godeps/_workspace/src/github.com/godbus/dbus/message.go:203-246 | the bytes or the error are those of the specification: an invalid message and one over 2^27 bytes are refused |
| Messages.BodyIsSentAnyway | Godeps/_workspace/src/github.com/godbus/dbus/message.go:223-246 | an error of the encoder is ignored: the encoding of the body is complete if and only if the body is encodable, but in any case what was written of it is sent, and a valid message fails only by its length |
| Messages.RefusedBodyIsDropped | Godeps/_workspace/src/github.com/godbus/dbus/message.go:223-246 | a map with variants as keys is left out in this way: the message goes out without an error, with the bytes of the message without a body |
| Messages.RefusedIsValid | Godeps/_workspace/src/github.com/godbus/dbus/message.go:223-246 | there is such a valid message |
| Messages.ReadMessage | Godeps/_workspace/src/github.com/godbus/dbus/message.go:114-201 | the message and what follows it, or the error, or the panic when the padding before the body is missing, are those of the specification, with the 32-bit sum of lengths that the size check compares |
| Messages.EncodedMessage | Godeps/_workspace/src/github.com/godbus/dbus/message.go:206-246 | the layout of a message: 16 bytes of fixed fields and length, the headers from byte 16 on, padding that makes the body start at a multiple of 8, and a size that passes the reader's check as well |
| Messages.MessageRoundTrip | Godeps/_workspace/src/github.com/godbus/dbus/message.go:118-246 | DecodeMessage gives back the type, flags, serial, headers and body of every valid message that EncodeTo writes, whatever follows it, in both byte orders and for every order of the header map |
| TextLexer.VarLexer.Run | Godeps/_workspace/src/github.com/godbus/dbus/variant_lexer.go:94-98 | the state machine emits the tokens of the specification, and goes on for ever, or panics in ParseSignature, if and only if the specification says so |
| TextLexer.VarLexer.LexNormal | Godeps/_workspace/src/github.com/godbus/dbus/variant_lexer.go:106-170 | what is emitted and the state reached lead to the same tokens in the end |
| TextLexer.VarLexer.AcceptNumber | Godeps/_workspace/src/github.com/godbus/dbus/variant_lexer.go:207-228 | a number token ends after sign, prefix, digits, fraction and exponent, all optional |
| TextLexer.VarLexer.ToQuote | Godeps/_workspace/src/github.com/godbus/dbus/variant_lexer.go:239-254 | a string ends behind the first quote that no backslash protects |
| TextLexer.EndlessExactly | Godeps/_workspace/src/github.com/godbus/dbus/variant_lexer.go:106-237 | the lexer never ends if and only if one of the places where it starts a token holds a numeral that is no ASCII digit (and neither space nor letter); inside quotes and words such a numeral does no harm |
| TextLexer.PanicsExactly | Godeps/_workspace/src/github.com/godbus/dbus/variant_lexer.go:259-284 | it panics if and only if one of these places holds an @ and a signature of at most 255 bytes whose scan comes to an empty dict body |
| TextLexer.LexEnds | Godeps/_workspace/src/github.com/godbus/dbus/variant_lexer.go:106-170 | in particular it ends on every text without a numeral that is no ASCII digit |
| TextLexer.NeverEnds | Godeps/_workspace/src/github.com/godbus/dbus/variant_lexer.go:137-139 | standing at such a numeral that is neither space nor letter it emits empty number tokens for ever |
| TextPrinter.Format | Godeps/_workspace/src/github.com/godbus/dbus/variant.go:45-109 | the text, and whether it alone determines the type, of every value |
| TextPrinter.String | Godeps/_workspace/src/github.com/godbus/dbus/variant.go:116-124 | the type is written in front if and only if the text does not determine it |
| TextParser.VarParser.VarMakeNode | Godeps/_workspace/src/github.com/godbus/dbus/variant_parser.go:39-90 | node and position, or the failure, are those of the specification, for any tokens |
| TextParser.VarParser.VarMakeArrayNode | Godeps/_workspace/src/github.com/godbus/dbus/variant_parser.go:468-518 | the loop collects children and narrows the possible types, and fails where they contradict each other |
| TextParser.ReadVariant | Godeps/_workspace/src/github.com/godbus/dbus/variant.go:22-43 | lexer, parser, inference and value, run one after the other, give what the specification says for any text and expected signature, unless the lexer never ends |
| TextParser.ParseNeverEndsExactly | Godeps/_workspace/src/github.com/godbus/dbus/variant.go:22-43 | ParseVariant does not return if and only if its lexer comes to such a numeral |
| TextParser.ParsePanicsOnEmptyDict | Godeps/_workspace/src/github.com/godbus/dbus/variant_lexer.go:259-284 | it panics if its lexer comes to an annotation with an empty dict body |
| TextParser.AnnotatedEmptyDictPanics | Godeps/_workspace/src/github.com/godbus/dbus/variant_lexer.go:259-284 | @a{} {} is such a text |
| TextLexing.LexWritten | Godeps/_workspace/src/github.com/godbus/dbus/variant.go:118-124 | the text of a value, followed by a delimiter or nothing, is lexed into the tokens of the value |
| TextRoundTrip.UnquoteAll | Godeps/_workspace/src/github.com/godbus/dbus/variant_parser.go:331-389 | a quoted string is read with every escape undone but those of the vertical tab and of control characters without a letter, which are read literally |
| TextRoundTrip.MakesWritten | Godeps/_workspace/src/github.com/godbus/dbus/variant_parser.go:39-90 | the tokens of a value become its node, or are rejected because of an array of bytes that looks like floats |
| TextRoundTrip.InfersWritten | Godeps/_workspace/src/github.com/godbus/dbus/variant_parser.go:812-817 | the type inferred from the text of a value is its type |
| TextRoundTrip.ParsesString | Godeps/_workspace/src/github.com/godbus/dbus/variant.go:22-124 | ParseVariant of String, for every value of booleans, integers, strings, paths, signatures, variants and arrays: the value that is read, or that the text is rejected |
| TextRoundTrip.StringRoundTripExactly | Godeps/_workspace/src/github.com/godbus/dbus/variant.go:22-124 | a variant comes back with its type if and only if its strings avoid those characters, no array inside an array consists of empty arrays only, and no array of bytes has a byte with the digit e |
| TextRoundTrip.VerticalTabIsLost | Godeps/_workspace/src/github.com/godbus/dbus/variant_parser.go:331-389 | a vertical tab is read as the letter v |
| TextRoundTrip.ByteWithEIsRejected | Godeps/_workspace/src/github.com/godbus/dbus/variant_parser.go:162-170 | @ay [0xe] is rejected |
| TextRoundTrip.NestedEmptiesAreLost | Godeps/_workspace/src/github.com/godbus/dbus/variant_parser.go:449-466 | @aaai [[[]]] is read as [[]] |
| OpenFlow.SomeChosen | plugins/osdn/controller.go:211-270 | among finitely many matching flows one has the highest priority (section 5.3 of OpenFlow Switch Specification 1.3) |
| OpenFlow.AddedAll | plugins/osdn/bin/openshift-sdn-ovs:81-94 | what adding flows with different keys leaves in the tables |
| PipelineRuns.AtTable0 | plugins/osdn/controller.go:211-226 | whichever flow of table 0 is chosen, only cluster traffic for this node enters from the tunnel, only local addresses from lbr0, and pods' packets go to table 2 |
| PipelineRuns.AtTable1 | plugins/osdn/controller.go:228-230 | tunnel packets pass if and only if their sender is a known node |
| PipelineRuns.AtTable2 | plugins/osdn/bin/openshift-sdn-ovs:81-83 | a pod's packet passes if and only if port and address, for ARP also the hardware address, are the pod's, and then carries the pod's network |
| PipelineRuns.AtTable4 | plugins/osdn/controller.go:394-405 | a packet for a service goes to tun0 if and only if it is in network 0 or the service port is open to its network |
| PipelineRuns.AtTable5 | plugins/osdn/controller.go:247-255 | routing by destination: gateway, local subnet, cluster, elsewhere |
| PipelineRuns.AtTable7 | plugins/osdn/bin/openshift-sdn-ovs:88-94 | an IP packet goes to the port of the pod it is for if and only if the pod admits its network, else to lbr0 |
| PipelineRuns.AtTable8 | plugins/osdn/controller.go:333-336 | a packet for another node's subnet goes into the tunnel to that node, marked with its network |
| PipelineRuns.StepExactly | plugins/osdn/controller.go:211-270 | equal-priority matches never disagree in any table, so flow order is irrelevant |
| PipelineRuns.RunsExactly | plugins/osdn/controller.go:211-270 | from every table on, a node's flows have exactly one verdict on every packet, that of the intended pipeline |
| PipelineRuns.OneVerdict | plugins/osdn/controller.go:211-270 | from the first table every packet is dropped or sent: no table visited misses and every goto raises the table number |
| Isolation.Isolated | ISOLATION.md:28-32 | a packet from one pod for another, on one node or two, has exactly one end: the port of the other pod if it is ARP or their networks are the same or one is 0, else lbr0 of that node |
| Isolation.Isolation | plugins/osdn/controller.go:211-270 | a pod gets an IP packet of another pod, through the VXLAN hop if needed, if and only if one of them is in network 0 or both are in the same |
| Isolation.NothingElseArrives | plugins/osdn/bin/openshift-sdn-ovs:81-94 | if an IP packet from any container port, with whatever addresses, comes out at a pod's port, it has the address of a pod on the port it came from, is for the pod it comes out at, and the two may talk |
| Isolation.TwoTenants | ISOLATION.md:28-32 | a concrete network of two nodes meets all assumptions, and what a pod of one tenant sends to a pod of the other never reaches its port |
| Isolation.ServiceIsolation | plugins/osdn/controller.go:394-405 | a pod reaches a service through tun0 if and only if it is in network 0 or the service port is open to its network |
| Bridges.Transaction.Do | pkg/ovs/ovs.go:23-37 | after a failed command the following ones have no effect until the transaction ends |
| Bridges.Bridge.RunAll | pkg/ovs/ovs.go:119-126 | exactly the commands up to the first failure take effect, and the failure is reported |
| Bridges.Bridge.AddHostSubnetRules | plugins/osdn/controller.go:330-343 | the three flows of a host subnet are added, up to the first failure |
| Bridges.Bridge.DeleteHostSubnetRules | plugins/osdn/controller.go:345-356 | the two deletions for a host subnet are made, up to the first failure, with the address read literally or dropped because no protocol is given |
| Bridges.Bridge.AddServiceRules | plugins/osdn/controller.go:358-374 | one flow for each port of the service is added, up to the first failure, at which the loop returns |
| Bridges.Bridge.DeleteServiceRules | plugins/osdn/controller.go:376-392 | one deletion for each port is made, up to the first failure, at which the loop returns |
| Bridges.Bridge.SetupPod | plugins/osdn/bin/openshift-sdn-ovs:146-153 | setup adds the pod's flows, up to the first failure |
| Bridges.Bridge.UpdatePod | plugins/osdn/bin/openshift-sdn-ovs:155-160 | update deletes the flows about the pod's address and adds the pod's flows |
| Bridges.Bridge.TeardownPod | plugins/osdn/bin/openshift-sdn-ovs:162-166 | teardown makes the four deletions for the pod's address |
| Bridges.Bridge.SetupSDN | plugins/osdn/controller.go:133-328 | with gateway and version in place nothing changes; otherwise success means that the tables hold exactly the static flows; and whatever fails, the version flow is there afterwards only if nothing changed or all static flows are there |
| Bridges.SetupPrefix | plugins/osdn/controller.go:204-270 | a setup that stops short leaves no version flow behind |
| NodeRules.TeardownForgetsSetup | plugins/osdn/bin/openshift-sdn-ovs:110-113 | teardown after setup is teardown without it (non-strict deletion, section 6.4 of OpenFlow Switch Specification 1.3) |
| NodeRules.TeardownUndoesSetup | plugins/osdn/bin/openshift-sdn-ovs:146-166 | setup then teardown restores the flow tables if and only if no flow was about the pod's address before |
| NodeRules.UpdateIsFreshSetup | plugins/osdn/bin/openshift-sdn-ovs:155-160 | setup in one network then update to another equals a fresh setup, for all networks including 0 |
| NodeRules.UpdateReplacesSetup | plugins/osdn/bin/openshift-sdn-ovs:155-160 | where no flow was about the address before, setup then update leaves exactly what the setup in the other network leaves |
| NodeRules.PodAdded | plugins/osdn/bin/openshift-sdn-ovs:81-94 | setup of a pod with a new address gives the flows of the node with the pod, and leaves all others |
| NodeRules.PodRemoved | plugins/osdn/bin/openshift-sdn-ovs:110-113 | teardown gives the flows of the node without the pod if and only if the address is not the gateway, a service address, or a whole network |
| NodeRules.HostAdded | plugins/osdn/controller.go:330-343 | adding a host subnet gives the flows of the node with it if and only if no other host has the same subnet |
| NodeRules.HostRemoved | plugins/osdn/controller.go:345-356 | deleting a host subnet, with the address read literally, gives the flows of the node without it if and only if no other host has its address or a subnet inside its subnet; with the address dropped it gives these flows but for all of table 8 if and only if no other host has its address |
| NodeRules.NormalisedDeletionEmptiesTable8 | plugins/osdn/controller.go:345-356 | with the address dropped the deletion leaves, of any flows, exactly those not in table 8 and not of the tunnel from the host, which is no configuration's, and every packet that comes to table 8 then finds no flow |
| NodeRules.AddedReadAlike | plugins/osdn/controller.go:211-409 | all flows that are added name the protocol with addresses and ports, so both readings of them are the same |
| Bridges.DeletesReadAlike | plugins/osdn/bin/openshift-sdn-ovs:110-113 | and so do the other deletions |
| NodeRules.ServiceAdded | plugins/osdn/controller.go:398-405 | adding a service rule adds one port in one network and changes nothing else |
| NodeRules.ServiceRemoved | plugins/osdn/controller.go:407-409 | deleting a service rule removes the port in every network and nothing else |
| NodeRules.EventTracks | plugins/osdn/controller.go:330-392 | each of these events turns the flows of a node into the flows of its new configuration, if and only if it is not a deletion of a host subnet whose address is dropped |
| NodeRules.RunTracks | plugins/osdn/controller.go:330-392 | over any run of events the bridge holds exactly the flows of the node's current configuration, to which the isolation results apply, if and only if no deletion of a host subnet in it has its address dropped |
| NodeRules.CarryOutAll | plugins/osdn/controller.go:330-392 | the methods of the bridge, carried out for a run of events without a failure, leave it with exactly the flows of the last configuration under the same condition |
| SubnetWatch.Watcher.Handle | plugins/osdn/subnets.go:209-257 | one round of the watch loop, whatever commands fail: failed deletions are only logged, a host is remembered only if all its rules were added |
| SubnetWatch.WatchSubnets | plugins/osdn/subnets.go:209-257 | the loop, over any events, whatever commands fail from some command on |
| SubnetWatch.StaysInStep | plugins/osdn/subnets.go:227-251 | tables 1 and 8 stay in step with the map if and only if the event does not move a known host to an invalid address and deletes nothing with its address dropped, despite the skip of unchanged addresses |
| SubnetWatch.RepairIsSkipped | plugins/osdn/subnets.go:229-241 | a host that moves to an invalid address and back keeps its entry but never gets its rules back; with the address dropped no host has rules in table 8 then |
| SubnetWatch.RunStaysInStep | plugins/osdn/subnets.go:209-257 | over any run of events with valid foreign addresses the map is the set of existing host subnets, and tables 1 and 8 hold exactly their rules if and only if addresses are read literally or no event of the run deletes a host subnet |
| Vnids.NewNetIDAllocator | pkg/netutils/netid_allocator.go:13-27 | it fails exactly on an empty range or an id out of range, and starts with the ids in use |
| Vnids.NetIDAllocator.GetNetID | pkg/netutils/netid_allocator.go:29-40 | the least free id is taken, and the call fails only if there is none |
| Vnids.NetIDAllocator.ReleaseNetID | pkg/netutils/netid_allocator.go:42-54 | a taken id of the range becomes free, anything else is refused |
| Vnids.VnidMap.CheckVNID | plugins/osdn/vnids.go:93-103 | the loop finds an id if and only if some namespace has it |
| Vnids.VnidMap.GetAllocatedVNIDs | plugins/osdn/vnids.go:105-120 | all ids but 0, each once |
| Vnids.VnidStartMaster | plugins/osdn/vnids.go:122-152 | start fails exactly if the NetNamespaces cannot be listed or an id is out of range; otherwise map and allocator agree with the registry |
| Vnids.Master.AssignVNID | plugins/osdn/vnids.go:163-199 | the new map, registry and taken ids in every case of failure |
| Vnids.Master.RevokeVNID | plugins/osdn/vnids.go:201-235 | the new map, registry and taken ids in every case of failure |
| Vnids.WatchNamespaces | plugins/osdn/vnids.go:237-265 | the loop, over any events, with errors only logged |
| Vnids.RunStaysUnique | plugins/osdn/vnids.go:163-235 | over any sequence of namespace events, with any request failing, no two namespaces of the registry share an id other than 0 and every such id stays taken |
| Vnids.StaysConserved | plugins/osdn/vnids.go:163-235 | map, registry and allocator agree after an event if and only if it is not a failed deletion of an existing NetNamespace |
| Vnids.RunStaysConserved | plugins/osdn/vnids.go:163-235 | they agree over any sequence of events in which such deletions succeed, also with shared ids |
| Vnids.FreedWithTheLast | plugins/osdn/vnids.go:218-233 | an id is free again exactly when its last namespace goes |
| Vnids.FreshIsLeastUnused | plugins/osdn/vnids.go:176-198 | a new namespace gets the least id in 10..2^24-1 that no namespace has, and none only if there is none |
| Vnids.FailedDeletionLeaks | plugins/osdn/vnids.go:201-223 | a deletion that fails and is repeated leaves its id taken with no namespace |
| Vnids.LeakIsForever | plugins/osdn/vnids.go:163-235 | such an id is never used again while the master runs |
| Bits.AndLow | pkg/netutils/subnet_allocator.go:44-45 | masking with 2^k - 1 keeps the low k bits |
| Bits.OrDisjoint | pkg/netutils/subnet_allocator.go:97 | or-ing bits that do not overlap adds |
| SubnetAllocation.AddressRotated | pkg/netutils/subnet_allocator.go:94-97 | the shift-and-mask formula on 32-bit words, in the rotated case, as a sum of three terms |
| SubnetAllocation.AddressIsAligned | pkg/netutils/subnet_allocator.go:88-98 | the formula yields the aligned addresses of the network, in a permuted order |
| SubnetAllocation.RotationIsBijection | pkg/netutils/subnet_allocator.go:25-56 | the permutation is a bijection on the subnet numbers, with its inverse |
| SubnetAllocation.RotatedAddress | pkg/netutils/subnet_allocator.go:30-41 | base + (n mod 2^rightShift) * 2^(hostBits+leftShift) + (n div 2^rightShift) * 2^hostBits, so that the first subnets are exactly those with zeros in the octet that subnet and host share |
| SubnetAllocation.SubnetsDisjoint | pkg/netutils/subnet_allocator.go:83-98 | subnets of different numbers share no address, and all lie in the network |
| SubnetAllocation.AlignedIsPlanned | pkg/netutils/subnet_allocator.go:58-69 | every aligned subnet of the network with the right length is among them |
| SubnetAllocation.CountIs | pkg/netutils/subnet_allocator.go:88-91 | the number of subnets as a 32-bit word: 0 if the shift is 32, and never over 2^31 |
| SubnetAllocation.CandidateIsCyclic | pkg/netutils/subnet_allocator.go:94-95 | i + next never wraps 32 bits, so the search goes through all numbers in cyclic order |
| SubnetAllocation.SubnetAllocator.GetNetwork | pkg/netutils/subnet_allocator.go:83-109 | the first free subnet in cyclic order from next is taken, and next moves behind it; on failure next returns to 0 |
| SubnetAllocation.SubnetAllocator.ReleaseNetwork | pkg/netutils/subnet_allocator.go:111-124 | a taken subnet of the network becomes free, anything else is refused |
| SubnetAllocation.NewSubnetAllocator | pkg/netutils/subnet_allocator.go:19-81 | it fails exactly when the host bits exceed the network, and starts with the parsable subnets in use inside the network |
| SubnetAllocation.FirstFreeIsFirst | pkg/netutils/subnet_allocator.go:94-104 | no free subnet is nearer to next than the one found |
| SubnetAllocation.FailsOnlyWhenFull | pkg/netutils/subnet_allocator.go:107-108 | the search fails if and only if all subnets are taken |
| SubnetAllocation.HandedOutIsDisjoint | pkg/netutils/subnet_allocator.go:83-109 | what is handed out overlaps no aligned subnet in use of the same length |
| SubnetAllocation.OutstandingStayApart | pkg/netutils/subnet_allocator.go:19-124 | over any sequence of GetNetwork and ReleaseNetwork, from any subnets in use at the start, the subnets handed out and not released lie in the network and share no address with each other, nor with an aligned subnet of the same length in use at the start and not released |
| SubnetAllocation.RunKeepsSound | pkg/netutils/subnet_allocator.go:83-124 | over any such sequence the subnets in use at the start are taken exactly until they are released |
| SubnetAllocation.PlannedExactly | pkg/netutils/subnet_allocator.go:58-98 | the subnets that can be handed out are exactly the aligned ones of the network and of the length, if the 32-bit count of them is not 0 |
| Subnets.Master.AddNode | plugins/osdn/subnets.go:47-83 | the new registry and allocator in every case of failure |
| Subnets.Master.DeleteNode | plugins/osdn/subnets.go:85-102 | the new registry and allocator in every case of failure |
| Subnets.Handle | plugins/osdn/subnets.go:112-156 | one round of the watch loop: a node whose address is unknown or unchanged is skipped, and an address is remembered exactly if adding the node succeeded |
| Subnets.WatchNodes | plugins/osdn/subnets.go:112-156 | the loop, over any events, with errors only logged |
| Subnets.WatchIsRun | plugins/osdn/subnets.go:112-156 | what the loop does is a run of node events, so if no deletion fails halfway it keeps the nodes apart |
| Subnets.StartAssignsExactly | plugins/osdn/subnets.go:21-45 | a start from any registry makes registry and allocator agree on different subnets if and only if the registered subnets are different aligned subnets of the network and of the length in use |
| Subnets.SubnetStartMaster | plugins/osdn/subnets.go:21-45 | start fails exactly if the HostSubnets cannot be listed or the host bits exceed the network; otherwise the allocator starts with the registered subnets of the network |
| Subnets.AddKeeps | plugins/osdn/subnets.go:47-83 | adding or changing a node keeps subnets different and allocated exactly if registered, whatever fails |
| Subnets.DeleteKeeps | plugins/osdn/subnets.go:85-102 | so does deleting a node if and only if it does not fail after the subnet was released |
| Subnets.RunKeepsNodesApart | plugins/osdn/subnets.go:21-156 | over any run of node events and restarts without that failure, no two nodes have overlapping subnets, exactly the registered subnets are allocated, and all is as at the start of a run |
| Subnets.FailedDeletionOverlaps | plugins/osdn/subnets.go:94-98 | with that failure two registered nodes may have the same subnet |
| Subnets.GatewayInOctets | pkg/netutils/common.go:22-26 | setting the last bit of the last byte gives the gateway the flows are built with |
| Subnets.NodesHaveTheirGateways | pkg/netutils/common.go:22-26 | with at least one host bit the nodes' nets are disjoint parts of the cluster network, each with a gateway of its own inside |
| Proxy.ProxyPlugin.WatchPods | plugins/osdn/proxy.go:63-129 | the tracked pods after a sequence of events |
| Proxy.ProxyPlugin.OnEndpointsUpdate | plugins/osdn/proxy.go:131-166 | the nested loops pass on exactly the acceptable endpoints, in order; nothing is passed on without network information |
| Proxy.TracksOwners | plugins/osdn/proxy.go:92-129 | podsByIP names a pod for an address if and only if the pod was the last to report that it uses it and has not ended since, whatever ends are reported late |
| Proxy.OwnerIsNewest | plugins/osdn/proxy.go:92-118 | if earlier owners stay silent, that pod is the newest on the address |
| Proxy.KeptIsHonest | plugins/osdn/proxy.go:131-163 | endpoints are acceptable if and only if no address is in the service network and every address in the cluster network is owned by a pod of the same namespace |
| Proxy.PassesOnTheHonest | plugins/osdn/proxy.go:131-166 | what is passed on are exactly these endpoints, each once, in the order given |

## Left out

- RoundTrip.AlignStableRoundTrip: gives a condition under which values survive, not an exact one for whole values, because bytes in the wrong place can still decode to the same value by coincidence; the exact condition for the bytes of one array is Agreement.ArrayIsWireFormatExactly.
- Messages.MessageRoundTrip: asks the same of the body, and that the signature header is the signature of the body, which IsValid does not check.
- Agreement.ArrayIsWireFormatExactly: asks that the elements are right in a frame of their own; without this the bytes of an inner array may be wrong as well.
- SubnetWatch.Watcher.Handle: commands fail from some command on, not now and then.
- SubnetWatch.RunStaysInStep: assumes distinct addresses, subnets none of which contains another, subnets that do not change, and deletions that carry the latest address.
- NodeRules.HostRemoved: which of the two readings of "nw_dst" without a protocol a given Open vSwitch follows is not part of this model; ovs-ofctl documents the second.
- Isolation.Isolation: assumes node subnets inside the cluster network and disjoint, cluster and service networks disjoint, gateways inside their subnets, pods on ports above 3 with addresses and ports of their own, and every node to have the rules of all others.
- Subnets.RunKeepsNodesApart: assumes a well-formed registry at the start (Subnets.StartAssignsExactly) and an unchanged HostSubnetLength.
- Signature.TypeForPrint: typeFor gives a slice of interfaces for a struct; the model keeps the types of its fields.
- Signature.EmptyDictPanics: says where the panic comes for an empty dict body outside other containers; Signature.PanicHasEmptyDict covers all places.
- Decoding.Decoder.DecodeAll: an invalid signature is an error here; in the source the deferred function (decoder.go:44-52) replaces the returned error with nil, so that Decode gives no values and no error. DecodeMessage passes it valid signatures only.
- TextPrinter.Format: covers booleans, integers, strings, paths, signatures, variants and arrays; floats, dicts, structs and file descriptors have no text, and strconv.Quote is that of Go 1.6, which writes DEL as a \u escape.
- TextPrinter.String: has the same scope.
- TextParser.VarParser.VarMakeNode: dicts and byte strings are a failure of their own (Unmodelled).
- TextParser.ReadVariant: ends in the same failure on them.
- Proxy.TracksOwners: assumes that a pod that has an address keeps it; the loop variable whose address Start stores (proxy.go:54-56) is left out, and pods are values.
- Wire codec: reflection, pointers, struct tags and Store conversions; a struct is decoded into a list of interfaces, which cannot be encoded again, while the model keeps it a struct; memory limits; the meaning of floats (8 bytes); NaN and negative zero as dict keys; error texts.
- Messages: the reader is a byte string, so short reads do not occur.
- Text form: texts are valid Unicode.
- Flows: bandwidth, macvlan, ports of the bridge, docker and iptables set-up; ARP isolation, which is not promised; traffic that enters through tun0 or lbr0 is in network 0; the single-tenant plugin.
- The watchers of NetNamespaces and services on the node, and how they interleave.
- Writes to NetNamespaces by the admin commands while the master runs: the master is the only writer.
- Clients, event queues, goroutines, locks, retries and timeouts: every handler is one step.
- D-Bus authentication, connections, transports and introspection; IPv6.
