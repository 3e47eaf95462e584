# ISODE: addresses, FTAM, and the compatibility library

A Dafny 4.11 model of the parts of ISODE that carry its hardest promises, and proofs of
those promises. `dafny verify dfyconfig.toml` checks everything.

| file | what it models |
|---|---|
| `Options.dfy`, `Digits.dfy`, `Addresses.dfy` | optional values, digits, nibbles and hexadecimal text, network addresses and the community table |
| `NormCodec.dfy` | the octet form of network addresses (Kille's interim approach, RFC 1277): na2norm and norm2na |
| `NormRoundTrip.dfy` | when norm2na undoes na2norm |
| `OctetForms.dfy` | the octet form by its digits: what is written where, and what any octets are read as |
| `Macros.dfy` | case-blind hash tables of macros and aliases, and the abbreviation of text |
| `NsapText.dfy`, `AddressText.dfy`, `PaddrText.dfy` | the text form of NSAPs, of one network address, and of a presentation address (RFC 1278, AFIs of Annex A of ITU-T X.213): str2paddr and _paddr2str |
| `SelectorText.dfy`, `NetworkText.dfy` | the grammar of RFC 1278 as a person writes it: every form of a selector and of a network address, and what it stands for |
| `Tailoring.dfy` | what a community's macro says (macro2comm), the built-in community table, and the tailored communities behind it |
| `Dse.dfy` | presentation addresses in directory messages |
| `X25Dte.dfy` | DTE addresses between the generic and the interface form |
| `AcseContexts.dfy` | the presentation context ACSE adds for itself (clause 7.1 of ITU-T X.227) |
| `FtamNegotiation.dfy`, `FtamContents.dfy` | F-INITIALIZE at both ends: classes, units, attributes; document types and contexts (ISO 8571-3, ISO 8571-4) |
| `FtamGroups.dfy` | grouped requests and responses, and the automaton that reads them |
| `FtamRegime.dfy`, `FtamJoint.dfy` | the ideal file regime of one end, and of two ends whose groups mean the same to both |
| `FtamAssociation.dfy` | two ends as F-INITIALIZE leaves them, exchanging real groups over FIFO channels |
| `FtamDialogue.dfy` | which message may follow which, told by the messages alone; activities and whole sessions |
| `FtamProgress.dfy` | what the class allows over any run, and that every clean run can be brought to its end |
| `FtamForeign.dfy` | groups in any order from a peer of another make |
| `FtamFailures.dfy` | what becomes of the two ends when a run stops being clean |
| `FtamBlocks.dfy` | struct ftamblk under every primitive and indication, and a driver for two blocks |
| `Dgram.dfy`, `DgramGroups.dfy` | the datagram demultiplexer, and who hears whom over a run |
| `Dirent.dfy` | buffered directory streams |
| `Signals.dfy` | Berkeley signal masks emulated on top of signal() |

Code that updates things in place is a class or a method with loops, each proved equal to a
specification function; what the source promises is then proved about those functions as
lemmas over all inputs, all runs or all reachable states.

## Main results

- **Octet codec.** `NormRoundTrip.RoundTrip`: norm2na undoes na2norm, up to the information the
  encoding drops by design, if and only if `Survives` holds, a condition on the address and
  the table, for every table. `PrefixFreeSurvives` names tables that keep every TCP and
  X.25 address but for long CUDFs and X.121 lengths, and `Tailoring.BuiltinTable` shows the
  built-in one to be such a table.
  `Dse.DseRoundTrip` lifts the law to whole presentation addresses. `OctetForms` says digit by
  digit what is written, and reads octets that no encoder of this make wrote, such as AFI 37.
- **Text codec.** `AddressText.NetRoundTrip` and `PaddrText.PaddrRoundTrip`: printing and
  parsing give the same address back if and only if selectors and list fit and each network
  address is `Readable`, under every community value macro2comm takes. `PaddrText.PaddrReads`
  says it for any macros printed, redefined ones too. `PaddrText.CompactRoundTrip` joins the
  two codecs. Texts that are typed and not printed are held to a grammar with its own meaning:
  `SelectorText.SelectorsRead` carries every spelling of a selector, `#` numbers among them,
  into the presentation address, and `NetworkText.FormInTable` every form of a network address.
- **FTAM regime.** `FtamAssociation.Safety` and `OrderlyRelease`: in every run in which
  cancels do not cross, every request is one the responder's units can serve, and every
  grouped response answers its request and does not hide a failed open, both ends live, at
  most one may send data, everything that arrives is accepted, idle channels mean agreeing
  states, and termination never cuts anything off. Each condition is exact:
  `FtamFailures.UnservableIsFatal`, `EvasiveReply` with `PartedRun`, and `CrossingIsFatal`
  say what the first step that breaks it costs. `FtamBlocks.Drive` carries this to the blocks.
- **FTAM dialogues.** `FtamDialogue.Dialogue` says which message may follow which without a
  word of states. `DialogueLaw`: two ends in lock-step live to the end of a dialogue if and
  only if it is one and class and units are for it. So every read, write, locate, erase and
  cancel runs, with any number of F-DATA (`ActivityRuns`), every group in order of every class
  (`GroupRuns`), and whole sessions (`SessionRuns`, `FtamBlocks.DriveSession`).
  `FtamProgress.ClassRuns` keeps each class to its states over every run, and `Completable`
  brings every clean run to its end. `FtamForeign.ScanLanguage` is the exact language of
  the automaton that reads groups.
- **FTAM negotiation.** `FtamNegotiation.EndToEnd`: whatever the responder answers, the
  initiator accepts it on the same terms. `FtamContents.ContentsAgree`: with the same contents
  and context identifiers if and only if the responder gave verdicts or accepted nothing.
- **FTAM groups.** `FtamGroups.RequestArrives` and `ReplyArrives`: every group that passes
  the initiator's checks is taken for what it is; a reply is taken exactly when it `Answers`.
- **Demultiplexer**: `Dgram.AlwaysWiredAndConserved`, `RunInOrder`, and
  `DgramGroups.JoinedHears`: after a join, whatever comes from that sender goes to the new
  descriptor, over every run that leaves it and its root open.
- **Directory streams, signals, macros**: `Dirent.DirStream.Seek`, `Signals.DeliveredAsDue` and
  `CallsDecide`, `Macros.MacroTable.Find`.

## Where the code does not do what one expects

Each of these is a lemma with the exact condition, or a concrete input.

- An X.25 call user data field of ten octets or more is encoded with a two-digit length that
  the decoder reads as one digit (`NormRoundTrip.LongCudfLost`; compat/na2norm.c:92,
  compat/norm2na.c:134). An empty or over-long X.121 address does not come back either.
- A responder may leave out of a grouped response what the initiator insists on, and the
  initiator is then lost; or leave F-OPEN out of a bulk-begin response while its own open
  state says failure, and then the initiator alone enters the data regime, where its first
  request costs the responder (`FtamFailures.EvasiveReply`, `PartedIsFatal`,
  `FtamGroups.OpenLeftOut`; ftam/ftamgroup2.c:99-113, ftam/ftamprovider.c:1340-1347).
- Crossing F-CANCELs: each end answers the other's request and goes idle
  (ftam/ftamprovider.c:1243-1263), and then refuses the answer to its own
  (ftam/ftamprovider.c:1111-1113).
- The responder's check of the functional units asks for one mandatory unit, not all, so it
  may end with fewer units than the initiator (`FtamNegotiation.UnitsCanDiffer`), and the
  first request that needs one of them frees its block (`FtamFailures.UnservableIsFatal`).
- A response without a contents argument names no document type, while the responder still
  holds its types as accepted (`FtamContents.ContentsAgree`).
- NSAP texts: an IA5 DSP prints as hexadecimal and parses as characters; a hexadecimal NSAP
  with an empty DSP prints without a mark and parses as decimal; an AFI for IDIs with a
  leading zero parses as the other AFI when there is no leading zero; X121 without a DSP
  parses as an X.25 address. All are excluded by `AddressText.Canonical`, exactly.
- macro2comm takes a tag in any case and values without a prefix field, such as the macro
  TCP of support/macros.prefix; str2paddr wants the exact tag and the field. An address of
  such a community is printed and never read again (`AddressText.TcpUnshaped`,
  `X25Unshaped`; compat/isoaddrs.c:991-1005 against 655-665 and 724-729).
- str2paddr takes the next of two static results at every call and never wraps
  (compat/isoaddrs.c:362-364), so its third call writes behind them; only _paddr2str wraps
  (compat/isoaddrs.c:1103). The model returns values and does not show it.
- A selector of 64 octets that may be quoted is printed in quotes, and copying it back
  writes its terminator behind the buffer (compat/isoaddrs.c:393); the model refuses it
  (`PaddrText.SelFits`).
- A text with more than eight addresses is accepted without its selectors
  (`PaddrText.TooManyLoseSelectors`).
- A selector longer than 64 octets in a directory message is dropped without an error, and
  the rest of the address comes back (`Dse.LongSelectorLost`).
- A tailored X.121 community repeats the subnet of the built-in one (compat/isoaddrs.c:937;
  `Tailoring.X121Repeats`); the codec law does not need distinct subnets.
- A macro name defined twice can make an abbreviated address expand to something else
  (`Macros.RedefinitionBreaks`).
- Giving a root socket a new peer while its queue holds another sender's datagram mixes the
  two (`Dgram.RepeeringMixes`).

The `%014s` of compat/na2norm.c:80 is read as padding with zeros, which is its intent and
which C leaves undefined.

## Model

| member | source | states |
|---|---|---|
| `Digits.ExplodeLoop` | compat/explode.c:12-24 | the loop computes the hexadecimal text of the octets |
| `Digits.ImplodeLoop` | compat/implode.c:26-41 | the loop, behind the checks of the IMPLODE macro, refuses odd lengths and foreign characters and computes the octets otherwise |
| `Digits.ImplodeExplode` | compat/implode.c:26-41 | reading back exploded octets gives the octets, for every octet string |
| `Digits.PackLoop` | compat/isoaddrs.c:321-344 | two digits an octet, a pad nibble after an odd number, refusal when an octet overflows |
| `Digits.UnpackPack` | compat/norm2na.c:79-103 | unpacking undoes packing for every digit string of either parity |
| `Addresses.LiteralDotted` | compat/norm2na.c:193-200 | a printed IPv4 literal denotes its own four octets |
| `NormCodec.EncodeAddress` | compat/na2norm.c:29-128 | the encoder's branches and loops compute the specified octets or fail |
| `NormCodec.EncodedFits` | compat/na2norm.c:107-128 | every well-formed address with a community of its syntax is encoded within 64 octets |
| `NormCodec.DecodeAddress` | compat/norm2na.c:18-258 | the decoder's branches and loops compute the specified address, refusal or overrun |
| `NormCodec.ScanTable` | compat/norm2na.c:61-66 | the scan finds the longest community prefix |
| `NormCodec.ReadX121` | compat/norm2na.c:21-56 | the X.121 form: digits without leading zeros, or a real NSAP when they are not digits |
| `NormCodec.ReadX25` | compat/norm2na.c:114-185 | indicator, PID or CUDF triples and DTE, with every fallback to a real NSAP |
| `NormCodec.FieldDigits` | compat/na2norm.c:85-97 | the indicator, length and triples of a PID or CUDF |
| `NormCodec.TcpString` | compat/na2norm.c:55-71 | host, port and transport set as fixed-width digits |
| `NormRoundTrip.TcpRoundTrip` | compat/norm2na.c:187-228 | every TCP digit string decodes to its address, the default or portless tset removed |
| `NormRoundTrip.X25RoundTrip` | compat/norm2na.c:114-185 | X.25 digits decode to the address if and only if the length indicator is one digit |
| `NormRoundTrip.X121RoundTrip` | compat/na2norm.c:75-83 | the X.121 form comes back if and only if it has 1 to 14 digits |
| `NormRoundTrip.RoundTrip` | compat/norm2na.c:18-258 | decoding an encoding gives the normal form if and only if Survives, for every well-formed address and every table |
| `NormRoundTrip.NsapRoundTrip` | compat/norm2na.c:76-113 | an NSAP is read as itself if and only if its longest community keeps it whole: none, one of NSAP syntax and this subnet, or digits that make no address |
| `NormRoundTrip.X25FallsBack` | compat/norm2na.c:114-180 | the X.25 decoder falls back exactly for a missing or large indicator, a missing length, too few triples, a long PID or a triple above 255 |
| `NormRoundTrip.TcpFallsBack` | compat/norm2na.c:187-219 | the TCP decoder falls back exactly when the digits stop inside host, port or transport set |
| `NormRoundTrip.LedAstray` | compat/norm2na.c:61-66 | through a community that does not decode alike an address never comes back |
| `NormRoundTrip.PrefixFreeSurvives` | compat/norm2na.c:61-66 | where no prefix that houses TCP or X.25 addresses starts another, every such address survives but for long CUDFs and X.121 lengths |
| `Tailoring.X121Repeats` | compat/isoaddrs.c:931-939 | a tailored X.121 community makes a subnet appear twice, in any table that extends the built-in one |
| `NormRoundTrip.EncodingInjective` | compat/na2norm.c:29-128 | surviving addresses with one encoding have one normal form |
| `NormRoundTrip.LongCudfLost` | compat/na2norm.c:85-97 | every CUDF of ten octets or more, in any X.25 community, is encoded and then misread |
| `OctetForms.X121Written` | compat/na2norm.c:75-83 | an international address is AFI 36 and its digits behind zeros, fourteen in all |
| `OctetForms.TcpWritten` | compat/na2norm.c:55-71 | three digits spell each octet of the host, five the port, five the transport set, behind the prefix of the community |
| `OctetForms.X25Written` | compat/na2norm.c:84-104 | indicator, length and three digits for each octet of the field in front of the DTE, behind the prefix of the community |
| `OctetForms.X121Read` | compat/norm2na.c:21-56 | AFI 36 or 37 and fourteen digits are the international address without the leading zeros, in every table |
| `OctetForms.IntX25Only` | compat/norm2na.c:21-66 | no other octets are an international X.25 address unless a community with its subnet claims them |
| `OctetForms.TcpRead` | compat/norm2na.c:187-228 | host, port and transport set by the value of their digits, cut to sixteen bits |
| `Tailoring.PickIgnoresOrder` | compat/norm2na.c:61-66 | with distinct prefixes the community chosen does not depend on the order of the table |
| `Tailoring.AddCommunities` | compat/isotailor.c:627-651 | the tailored communities that are added keep all prefixes distinct, each tailored prefix is in the table, and the subnets are distinct if and only if no X.121 community was added |
| `Macros.Lexequ` | compat/lexequ.c:6-26 | zero exactly for texts equal ignoring case, else the order of the first difference |
| `Macros.HashInside` | compat/isoaddrs.c:27-31 | the hash of every seven-bit name is below 128 |
| `Macros.HashFolds` | compat/isoaddrs.c:28-31 | names equal ignoring case share a bucket |
| `Macros.ChainSearch` | compat/isoaddrs.c:99-108 | searching the bucket finds the newest binding a linear scan would find |
| `Macros.MacroTable.Find` | compat/isoaddrs.c:99-119 | the walk of the chain returns the newest case-blind binding of the whole table |
| `Macros.MacroTable.Push` | acsap/isoalias.c:90-120 | the new binding goes in front of its chain, every other chain stays |
| `Macros.MacroTable.AddMacro` | compat/isoaddrs.c:196-236 | a reference is resolved against the table as it is; a dangling one adds nothing |
| `Macros.PlainDefinition` | compat/isoaddrs.c:196-236 | a value without a reference is what the name stands for afterwards, in any case, and no other name changes |
| `Macros.ReferringDefinition` | compat/isoaddrs.c:203-225 | a reference is replaced by what its name stood for at that moment; a dangling one changes nothing |
| `Macros.NoReferenceLeft` | compat/isoaddrs.c:203-225 | however a table is built up from values with at most one reference each, no value in it has one left |
| `Macros.MacroTable.FindValue` | compat/isoaddrs.c:121-153 | the macro with the longest non-empty value that starts the text |
| `Macros.ExpandAbbreviate` | compat/isoaddrs.c:456-464 | expansion undoes abbreviation if and only if the newest binding of the name has the chosen value |
| `Macros.AbbreviationUndone` | compat/isoaddrs.c:1288-1295 | with names distinct ignoring case expansion always undoes abbreviation |
| `Macros.RedefinitionBreaks` | compat/isoaddrs.c:1288-1295 | a redefined name makes an abbreviated text expand to another one |
| `NsapText.FindAfi` | compat/isoaddrs.c:536-543 | the loop finds the entry with that name ignoring case |
| `NsapText.TableNamed` | compat/isoaddrs.c:251-265 | every name of the AFI table finds its own entry |
| `NsapText.TableCoded` | compat/isoaddrs.c:251-265 | the AFI codes of an entry are two digits and distinct between its syntaxes |
| `NsapText.PadIdi` | compat/isoaddrs.c:277-290 | the loop pads the IDI to its length behind the AFI |
| `Digits.StripPad` | compat/isoaddrs.c:1212-1216 | stripped pad digits can be put back, and the rest starts with another digit |
| `NsapText.LeadBack` | compat/isoaddrs.c:575-602 | AFI and IDI are rebuilt exactly for good padding; otherwise the parser takes the other AFI |
| `NsapText.ExplodePack` | compat/isoaddrs.c:321-344 | packed digits read in hexadecimal are the digits and the pad nibble |
| `NsapText.DecimalExact` | compat/isoaddrs.c:575-589 | a decimal NSAP comes back if and only if its padding is good and its DSP is digits with at most a final pad |
| `NsapText.HexExact` | compat/isoaddrs.c:591-628 | a hexadecimal DSP comes back if and only if the padding is good and the pad nibble is there after an odd AFI and IDI |
| `NsapText.FormExact` | compat/isoaddrs.c:1187-1237 | the AFI+IDI+DSP form of any entry and syntax comes back exactly for canonical addresses |
| `NsapText.ReadForm` | compat/isoaddrs.c:574-643 | the switch on the DSP mark computes the octets of the decimal, hexadecimal and IA5 syntaxes |
| `Tailoring.ReadCommunity` | compat/isoaddrs.c:867-1042 | the branches of macro2comm compute syntax, subnet and prefix, or refuse the value |
| `Tailoring.TaggedMade` | compat/isoaddrs.c:976-1017 | a value of AFI, IDI, tag and field belongs to the tag's syntax, and its prefix is the decimal NSAP of the rest |
| `Tailoring.TelexPrefix` | support/macros.prefix:31-48 | the prefix of the shipped values, octet by octet |
| `Tailoring.BuiltinTable` | compat/isotailor.c:136-145 | macro2comm makes the built-in table from the shipped values; its prefixes and subnets are distinct, and it keeps every TCP and X.25 address |
| `AddressText.ScanValues` | compat/isoaddrs.c:466-482 | the community with the longest value that starts the text |
| `AddressText.ScanPrefixes` | compat/isoaddrs.c:814-828 | the community with the longest prefix of the zero-padded address |
| `AddressText.TcpBack` | compat/isoaddrs.c:655-696 | the TCP text gives back host and port, and the transport set when there is a port |
| `AddressText.X25Back` | compat/isoaddrs.c:724-798 | the X.25 text gives back the DTE and the PID, and the CUDF when there is no PID |
| `AddressText.BareBack` | compat/isoaddrs.c:556-573 | X121 and digits alone parse as an international X.25 address |
| `AddressText.TcpUnshaped` | compat/isoaddrs.c:645-812 | behind any other value macro2comm takes, no TCP address is read |
| `AddressText.X25Unshaped` | compat/isoaddrs.c:645-812 | behind any other value macro2comm takes, an ordinary X.25 address is read only when the value is X121 alone |
| `AddressText.TcpRoundTrip` | compat/isoaddrs.c:1239-1251 | a TCP address is read back if and only if it is Readable |
| `AddressText.X25RoundTrip` | compat/isoaddrs.c:1253-1278 | an X.25 address is read back if and only if it is Readable |
| `AddressText.NsapFormRoundTrip` | compat/isoaddrs.c:1187-1237 | an NSAP printed as AFI+IDI+DSP is read back if and only if canonical and led back to its community |
| `AddressText.NsRoundTrip` | compat/isoaddrs.c:525-531 | an NSAP with an unknown AFI is read back if and only if some community claims its text and leads to its own |
| `AddressText.NetRoundTrip` | compat/isoaddrs.c:466-829 | any network address a table can print is read back if and only if it is Readable |
| `AddressText.ValueFreeReads` | compat/isoaddrs.c:466-482 | with no community value starting another, a TCP or X.25 address comes back if and only if its community's value carries it |
| `AddressText.ShapedValue` | compat/isoaddrs.c:982-1018 | every value made of AFI, IDI, the exact tag and a prefix field has the shape that carries addresses |
| `AddressText.ReadDsp` | compat/isoaddrs.c:544-812 | the branches behind the AFI compute the specified address |
| `AddressText.ReadNet` | compat/isoaddrs.c:466-829 | one address from the choice of its community to the correction of it |
| `NetworkText.TcpForm` | compat/isoaddrs.c:645-717 | AFI, IDI, RFC-1006, prefix, host, port and transport set by the fields of the text; refused when a field is missing or no number |
| `NetworkText.X25Form` | compat/isoaddrs.c:718-798 | AFI, IDI, X.25(80), prefix, DTE and a PID or CUDF by the fields of the text |
| `NetworkText.DigitsForm` | compat/isoaddrs.c:556-573 | X121 and digits alone are an international X.25 address of at most 36 digits |
| `NetworkText.NsForm` | compat/isoaddrs.c:525-531 | NS in any case and hexadecimal octets; refused exactly when the text spells none |
| `NetworkText.NsapForm` | compat/isoaddrs.c:574-643 | AFI, IDI and a DSP in digits, hexadecimal or characters spell the octets whose text they are |
| `NetworkText.FormInTable` | compat/isoaddrs.c:466-829 | a text that starts with an AFI or a community's value is read for the community of the longest value, real NSAPs without one, and an NSAP then goes to the community of its longest prefix |
| `NetworkText.TcpPrinted` | compat/isoaddrs.c:1239-1251 | the printed fields of a TCP address |
| `NetworkText.X25Printed` | compat/isoaddrs.c:1253-1278 | the printed fields of an X.25 address |
| `PaddrText.SelToText` | compat/isoaddrs.c:1047-1082 | quoted when every octet may be quoted, hexadecimal otherwise |
| `SelectorText.SpellingRead` | compat/isoaddrs.c:380-443 | every quoted, numeric, hexadecimal or empty selector is taken for the octets it stands for, and refused if it stands for none |
| `SelectorText.NumberSelector` | compat/isoaddrs.c:401-412 | `#n` is the two octets of n, high one first, for n up to 65535, and refused above |
| `SelectorText.SelectorsRead` | compat/isoaddrs.c:831-866 | up to three spelt selectors in front of any list reach the lowest layers of the address, or the text is refused |
| `SelectorText.SelectorsPrinted` | compat/isoaddrs.c:1119-1137 | the printer writes each selector in the spelling that stands for it, from the first one that is not empty |
| `SelectorText.PrintsWhen` | compat/isoaddrs.c:1084-1302 | the printer gives up exactly on an empty address, and on an address in it whose community has no macro or whose octets end inside AFI and IDI |
| `PaddrText.TakeBack` | compat/isoaddrs.c:380-443 | a printed selector of any octets is taken off the front of any text if and only if it fits its buffer |
| `PaddrText.SelsBack` | compat/isoaddrs.c:1119-1137 | the printed selectors come back, aligned to their layers, if and only if all fit |
| `PaddrText.ListBack` | compat/isoaddrs.c:450-455 | the list is split where the printer joined it |
| `PaddrText.PaddrReads` | compat/isoaddrs.c:346-866 | for any macros printed, the address comes back if and only if everything fits and each text shown stands for its address |
| `PaddrText.PaddrRoundTrip` | compat/isoaddrs.c:346-866 | the presentation address comes back, selectors and list, if and only if everything fits and every network address is Readable; without macros, or with macros that are still current |
| `PaddrText.DistinctNamesCurrent` | compat/isoaddrs.c:155-171 | with names distinct ignoring case every macro printed is current |
| `PaddrText.CompactRoundTrip` | compat/isoaddrs.c:1152-1161 | the octet form as text comes back with the same selectors and the octets, which decode to each address if and only if it survives |
| `PaddrText.TooManyLoseSelectors` | compat/isoaddrs.c:510-519 | more than eight addresses: exactly the first eight come back, without selectors |
| `PaddrText.ReadPaddr` | compat/isoaddrs.c:346-866 | the state-driven loop computes the specified result for every text |
| `PaddrText.ReadOne` | compat/isoaddrs.c:450-519 | one round of the list: expansion, checks, room, address |
| `PaddrText.ReadPiece` | compat/isoaddrs.c:456-464 | a macro at the front is replaced by its value |
| `PaddrText.WritePaddr` | compat/isoaddrs.c:1084-1302 | the printing loop, for all addresses or one: the longest macro per address when compact is zero, none when negative, the octet form when positive |
| `Dse.BuildDse` | acsap/dse-c.c:32-80 | optional selectors and the normalised addresses, or failure |
| `Dse.ParseDse` | acsap/dse-c.c:94-127 | selectors and decoded addresses; refusal of a ninth address |
| `Dse.DseRoundTrip` | acsap/dse-c.c:32-127 | the address comes back in normal form if and only if its selectors and its list fit and every network address survives |
| `Dse.LongSelectorLost` | acsap/dse-c.c:129-148 | selectors that are too long are dropped in silence and the rest of the address comes back |
| `Dse.DseElements` | acsap/dse-c.c:32-80 | each selector in its own element, none for an empty one, and the octets of every address in order; nothing if one has none |
| `Dse.DseMeans` | acsap/dse-c.c:94-148 | any message from any system: accepted if and only if at most eight addresses all decode, each selector from its own element |
| `X25Dte.ToInterface` | compat/x25addr.c:70-97 | DNIC stripping, secondary prefixes and the international zero |
| `X25Dte.ToGeneric` | compat/x25addr.c:667-683 | removal of the zero, or the DNIC in front of a short address |
| `X25Dte.DteRoundTrip` | compat/x25addr.c:667-683 | if2gen undoes gen2if if and only if the address meets the condition of its case |
| `X25Dte.InterfaceGets` | compat/x25addr.c:70-97 | what becomes of a local and of a foreign address on its way out |
| `X25Dte.InterfaceMeans` | compat/x25addr.c:667-683 | what any digits from the interface mean |
| `AcseContexts.FreshIdIsNew` | acsap/acsapinitiat.c:154-204 | the identifier exceeds every one in the list and is odd if they all are |
| `AcseContexts.AssocRequest` | acsap/acsapinitiat.c:129-204 | the list is extended for the request and restored afterwards |
| `AcseContexts.AcInitScan` | acsap/acsaprespond.c:89-111 | the responder's scan for the ACSE context |
| `AcseContexts.AcseRoundTrip` | acsap/acsapinitiat.c:373-388 | the responder recognises the initiator's identifier, and the caller gets its own contexts back in order |
| `AcseContexts.OfferingReuses` | acsap/acsapinitiat.c:154-204 | the first context the caller proposes for ACSE is used and nothing is added; otherwise one is added with a new identifier |
| `AcseContexts.OthersRefused` | acsap/acsaprespond.c:89-111 | a request on a context that is not ACSE's, not accepted or not proposed is a protocol error |
| `AcseContexts.RejectionLoses` | acsap/acsapinitiat.c:373-388 | a rejected ACSE context is a protocol error at both ends |
| `FtamNegotiation.FpmRoundTrip` | ftam/ftambits.c:6-42 | reading a written bit string gives the mask back |
| `FtamNegotiation.Bits2FpmLoop` | ftam/ftambits.c:6-24 | the loop sets the bits of the pairs in the mask |
| `FtamNegotiation.Fpm2BitsLoop` | ftam/ftambits.c:26-42 | the loop gathers the mask and counts its bits |
| `FtamNegotiation.OfferFacts` | ftam/ftaminitiate.c:28-60 | what the initiator's guards let through |
| `FtamNegotiation.OfferLaw` | ftam/ftaminitiate.c:28-60 | an offer is let through if and only if its classes, units and attributes go together, and goes out as it was but for the unconstrained class |
| `FtamNegotiation.IndicationAccepts` | ftam/ftamrespond.c:94-141 | no legal offer is refused, and the responder starts from exactly it |
| `FtamNegotiation.IndicationLaw` | ftam/ftamrespond.c:94-141 | exactly which requests of any initiator are indicated, and with which classes, units and attributes |
| `FtamNegotiation.AnswerLaw` | ftam/ftamrespond.c:409-485 | an answer is let through if and only if some class makes it acceptable, and both ends then hold its class, units and attributes, the initiator the mandatory units too |
| `FtamNegotiation.RefusalNarrows` | ftam/ftamrespond.c:409-485 | a refused answer changes what is open only by narrowing it |
| `FtamNegotiation.ResponderBlock.Init` | ftam/ftamrespond.c:94-141 | the block after FInit, or refusal |
| `FtamNegotiation.ResponderBlock.Answering` | ftam/ftamrespond.c:409-485 | the block and the response after FInitializeResponse, or refusal |
| `FtamNegotiation.Agreement` | ftam/ftaminitiate.c:378-495 | every response a responder within the offer produces is accepted, on the same terms |
| `FtamNegotiation.EndToEnd` | ftam/ftaminitiate.c:378-495 | the same for every legal offer and after any refused answers |
| `FtamNegotiation.UnitsCanDiffer` | ftam/ftamrespond.c:414-482 | the two ends may hold different units |
| `FtamContents.BuildOffer` | ftam/ftaminitiate.c:133-173 | the context list for the offered document types, or failure for an unknown one |
| `FtamContents.MatchContents` | ftam/ftamrespond.c:175-274 | the responder's contents and their contexts |
| `FtamContents.JudgeContents` | ftam/ftamrespond.c:486-522 | the loop over the verdicts: refusal of an unlawful one, the contents as judged otherwise |
| `FtamContents.FinishContents` | ftam/ftaminitiate.c:528-557 | the initiator's final contents |
| `FtamContents.ReadsBack` | ftam/ftamrespond.c:578-595 | the contents the initiator concludes are those the responder accepted |
| `FtamContents.ContentsAgree` | ftam/ftaminitiate.c:528-557 | both ends hold the accepted types in offer order with the same context identifiers if and only if the responder gave verdicts or accepted nothing |
| `FtamBlocks.FtamBlock.DataRequest` | ftam/ftambulk.c:27-178 | F-DATA and F-DATA-END: allowed to the data sender only, the second ends the data phase |
| `FtamBlocks.FtamBlock.CancelRequest` | ftam/ftambulk.c:205-292 | F-CANCEL from either end while data is moving |
| `FtamBlocks.FtamBlock.CancelResponse` | ftam/ftambulk.c:320-393 | the answer to F-CANCEL, and the idle state after it |
| `FtamBlocks.FtamBlock.ReadWriteRequest` | ftam/ftambulk1.c:66-180 | F-READ and F-WRITE start from the idle data state with their unit |
| `FtamBlocks.FtamBlock.TransferEnd` | ftam/ftambulk2.c:35-100 | F-TRANSFER-END request and response |
| `FtamBlocks.FtamBlock.AccessRequest` | ftam/ftamaccess1.c:45-116 | F-LOCATE and F-ERASE requests |
| `FtamBlocks.FtamBlock.AccessResponse` | ftam/ftamaccess2.c:42-137 | F-LOCATE and F-ERASE responses |
| `FtamBlocks.FtamBlock.GroupRequest` | ftam/ftamgroup1.c:46-104 | a grouped request behind its checks: the state and the group waited for |
| `FtamBlocks.FtamBlock.GroupResponse` | ftam/ftamgroup2.c:99-118 | a grouped response behind its checks: the state by the responder's own select and open results |
| `FtamBlocks.FtamBlock.CancelIndication` | ftam/ftamprovider.c:1242-1270 | F-CANCEL received: indication, confirmation or collision |
| `FtamBlocks.FtamBlock.DataIndication` | ftam/ftamprovider.c:1047-1195 | data, F-DATA-END and F-TRANSFER-END received |
| `FtamBlocks.FtamBlock.AccessIndication` | ftam/ftamprovider.c:874-1046 | F-READ, F-WRITE, F-LOCATE and F-ERASE received |
| `FtamBlocks.FtamBlock.GroupIndication` | ftam/ftamprovider.c:1275-1402 | a grouped request received: scan, threshold, kind, class, state and the group kept |
| `FtamBlocks.FtamBlock.GroupConfirmation` | ftam/ftamprovider.c:1282-1395 | a grouped response received: scan, mismatch, and the state by what is in the PDUs |
| `FtamBlocks.Drive` | ftam/ftamprovider.c:141-212 | two blocks and two queues under any schedule end where the association's Run says, or the schedule asks for something refused |
| `FtamBlocks.DriveClean` | ftam/ftamprovider.c:141-212 | under a clean schedule neither block is freed, and with empty queues they are in the same state |
| `FtamBlocks.DriveActivity` | ftam/ftambulk.c:27-393 | two blocks in the data regime carry out any activity, however many F-DATA it takes |
| `FtamBlocks.DriveSession` | ftam/ftamgroup1.c:46-104 | two blocks carry out bulk-begin, any activities and bulk-end, and are initialized again |
| `FtamAssociation.Negotiated` | ftam/ftaminitiate.c:378-495 | F-INITIALIZE leaves one class, and the initiator the responder's units and the mandatory ones |
| `FtamAssociation.StepKeeps` | ftam/ftamprovider.c:214-1438 | every proper step keeps the invariant while cancels do not cross |
| `FtamAssociation.Safety` | ftam/ftambulk.c:35-50 | over every clean run, with unequal units too: both ends live, at most one may send data, everything arriving is accepted, idle channels mean agreeing states |
| `FtamAssociation.OrderlyRelease` | ftam/ftamrelease1.c:38-42 | whenever the initiator may terminate, nothing is under way and the responder is initialized, so its check of the release never fails |
| `FtamAssociation.KeptUnitsServe` | ftam/ftaminitiate.c:28-60 | a responder that kept the class's mandatory units can serve every request |
| `FtamFailures.UnservableIsFatal` | ftam/ftamprovider.c:978-1046 | a request the responder's units do not cover costs the responder, in whatever state and whatever happens in between |
| `FtamAssociation.ReplyRead` | ftam/ftamprovider.c:1282-1395 | the initiator takes a response if and only if it answers the group, and is where the responder is if and only if the response does not hide a failed open |
| `FtamFailures.EvasiveReply` | ftam/ftamgroup2.c:99-118 | after the first response that breaks this, the only step left is to read it, and then the initiator is gone or the two ends are parted with nothing under way |
| `FtamFailures.PartedIsFatal` | ftam/ftamprovider.c:1340-1347 | whatever the initiator of parted ends issues first is a protocol error at the responder |
| `FtamFailures.PartedRun` | ftam/ftamprovider.c:874-1046 | over every continuation of parted ends only the initiator can issue, and the responder is gone once it has taken anything |
| `FtamAssociation.TransferEndAfterData` | ftam/ftambulk2.c:44-98 | F-TRANSFER-END is answered only after the data sender of that transfer ended the data phase, in every run, clean or not |
| `FtamDialogue.DialogueLaw` | ftam/ftamprovider.c:214-1438 | for dialogues of any length both ends live to the end if and only if every message may follow the one before it and class and units are for it |
| `FtamDialogue.ActivityRuns` | ftam/ftambulk.c:27-393 | every locate, erase, read, write and cancelled transfer, with any number of F-DATA, runs from request to last response and ends in the idle data state |
| `FtamDialogue.GroupRuns` | ftam/ftamgroup1.c:106-368 | every group in order that class and units are for is sent, taken and answered, a granted bulk-begin into the data regime |
| `FtamDialogue.SessionRuns` | ftam/ftamgroup1.c:46-104 | a granted bulk-begin, any list of activities, and a bulk-end leave both ends initialized |
| `FtamDialogue.ReleaseLaw` | ftam/ftamrelease1.c:38-42 | the initiator may release, and the responder takes a release, exactly when no group is open |
| `FtamDialogue.TakingMirrorsIssuing` | ftam/ftamprovider.c:874-1270 | an end takes exactly what its counterpart may issue at the same point, but for what is thrown away during a cancel |
| `FtamProgress.ClassRuns` | ftam/ftamgroup1.c:130-150 | over every run: in the transfer class no end manages, in the management class no end leaves the initialized and management states |
| `FtamProgress.Completable` | ftam/ftamprovider.c:214-1438 | every clean run can be continued by a clean run until both ends are initialized and nothing is under way |
| `FtamFailures.CrossingCollides` | ftam/ftambulk.c:216-292 | the first crossing leads into the collision state |
| `FtamFailures.CollisionRun` | ftam/ftamprovider.c:1095-1113 | no run leaves a collision but by losing an end, and each step makes it lighter |
| `FtamFailures.CrossingIsFatal` | ftam/ftamprovider.c:1242-1263 | after crossing cancels no primitive is ever allowed again, and an end is lost within a bounded number of steps |
| `FtamGroups.FillPdus` | ftam/ftamgroup1.c:371-595 | the PDUs of the parts present, in the fixed order |
| `FtamGroups.ScanLoop` | ftam/ftamprovider.c:297-1222 | the automaton over the PDUs of a group |
| `FtamGroups.ScanEmitted` | ftam/ftamprovider.c:297-1222 | reading emitted PDUs gives exactly the parts of a complete group and refuses any other |
| `FtamGroups.LegalSequence` | ftam/ftamgroup1.c:151-190 | an accepted group goes out as begin, head, attributes, tail, end of its kind |
| `FtamGroups.ShapeExact` | ftam/ftamgroup1.c:151-190 | the shape check lets through exactly the groups whose PDUs are a legal sequence |
| `FtamForeign.ScanLanguage` | ftam/ftamprovider.c:297-1222 | the automaton takes exactly begin, head, attributes in order, tail and end, each with its unit, but for F-DELETE requests |
| `FtamForeign.DeleteUnchecked` | ftam/ftamprovider.c:297-1222 | an F-DELETE request is taken wherever it comes, and only F-END-GROUP or another one after it |
| `FtamForeign.AskTakenExactly` | ftam/ftamprovider.c:1275-1402 | which grouped requests of any peer a responder takes, told by PDUs, class, units and state |
| `FtamForeign.StrayReply` | ftam/ftamprovider.c:1282-1395 | a response is taken only by an initiator that waits for one, and only a sequence of the language with nothing in it that was not asked for |
| `FtamGroups.RequestArrives` | ftam/ftamgroup1.c:106-368 | threshold plus two PDUs, which the responder takes for the same kind and parts |
| `FtamGroups.RequestRead` | ftam/ftamprovider.c:1275-1402 | a responder takes a legal group for its kind and parts if and only if class, its own units and its state allow it |
| `FtamGroups.ReplyArrives` | ftam/ftamgroup2.c:120-375 | a reply is taken if and only if it Answers, and the ends then agree if and only if they see the same open state |
| `FtamGroups.ReplySelects` | ftam/ftamgroup2.c:412-593 | the reply's PDUs are those of the request with some left out, in order |
| `FtamGroups.OpenLeftOut` | ftam/ftamgroup2.c:99-118 | for every bulk-begin request there is a reply that parts the two ends |
| `Dgram.Demux.StartServer` | compat/dgram.c:76-152 | a new root slot |
| `Dgram.Demux.JoinNewFd` | compat/dgram.c:257-309 | the first datagram of the root moves to a new slot, whose peer is its sender |
| `Dgram.Demux.SetPeer` | compat/dgram.c:343-366 | a root gets a new peer |
| `Dgram.Demux.ReadQueue` | compat/dgram.c:336-341 | the oldest datagram is taken, if there is one |
| `Dgram.Demux.ReadSocket` | compat/dgram.c:311-341 | select is repeated exactly until something is queued, and then the oldest datagram is taken |
| `Dgram.Demux.CloseSocket` | compat/dgram.c:418-439 | the slot is blank, its children stand on their own |
| `Dgram.Demux.Receive` | compat/dgram.c:481-565 | one datagram is appended to exactly one queue or dropped |
| `Dgram.Demux.Select` | compat/dgram.c:441-575 | all arrivals are taken in; an open slot asked about is readable exactly when its queue is not empty, any other descriptor as the kernel says |
| `Dgram.RouteIsRight` | compat/dgram.c:523-560 | a datagram goes to a slot of the group that talks to its sender if there is one, else to a root without a peer, else nowhere |
| `Dgram.StepWired` | compat/dgram.c:257-439 | every call keeps open slots under open roots and other slots blank |
| `Dgram.StepConserves` | compat/dgram.c:257-575 | every call keeps received equal to queued, read and dropped together |
| `Dgram.StepSorted` | compat/dgram.c:257-575 | every call keeps queues to their peers, re-peering if and only if the queue is the new peer's |
| `Dgram.RunKeeps` | compat/dgram.c:76-575 | wiring and conservation over every run |
| `Dgram.RunSorted` | compat/dgram.c:76-575 | queues hold their peer's datagrams over every run of careful callers |
| `Dgram.StepInOrder` | compat/dgram.c:257-575 | every call but the close of a slot takes from the front of its queue and adds at the end |
| `Dgram.RunInOrder` | compat/dgram.c:76-575 | over every run in which a slot is not closed, what left its queue followed by what is in it is what was in it followed by what was routed to it |
| `Dgram.AlwaysWiredAndConserved` | compat/dgram.c:76-575 | all three from the blank table on |
| `Dgram.RepeeringMixes` | compat/dgram.c:343-366 | re-peering a root with a stranger's datagram queued breaks the rule |
| `DgramGroups.JoinedHears` | compat/dgram.c:257-309 | after a join, over every run that closes neither, whatever the sender sends to the root or to the new descriptor goes to the end of the new one's queue |
| `DgramGroups.RunLeaves` | compat/dgram.c:76-575 | over every run that does not close it or its root, an open descriptor keeps its root and its peer |
| `DgramGroups.JoinTakes` | compat/dgram.c:281-306 | the new descriptor begins with the first datagram and the sender as its peer, the root goes on with the rest |
| `DgramGroups.ServerHears` | compat/dgram.c:76-152 | a server's descriptor hears from every sender |
| `DgramGroups.PeeredHears` | compat/dgram.c:343-366 | a root with a peer hears from it, and from nobody else that none of its descriptors talks to |
| `DgramGroups.CloseFrees` | compat/dgram.c:418-439 | a closed descriptor's queue is dropped, its children are roots, and nobody else changes |
| `DgramGroups.OrphansApart` | compat/dgram.c:418-439 | over every run after the root is closed, what arrives on one former child never goes to another |
| `Dirent.DirStream.Read` | dirent/readdir.c:26-50 | the next live entry of the directory, over dead entries and blocks |
| `Dirent.DirStream.Tell` | dirent/telldir.c:27-37 | inside a buffer, an offset that stands for what is still to be read |
| `Dirent.DirStream.Seek` | dirent/seekdir.c:39-109 | succeeds if and only if the offset is zero or in a block with a live entry, from every buffer state, with at most one rewind, and then reads on from there |
| `Dirent.DirStream.Look` | dirent/seekdir.c:73-92 | one look at a buffer: found, not in what was read so far, or behind it |
| `Dirent.DirStream.Rewind` | dirent/rewinddir.c:31-38 | everything is to be read again |
| `Dirent.FromEntry` | dirent/seekdir.c:58-108 | with growing offsets, the live entries from an entry's offset on are those behind it |
| `Dirent.Excursion` | dirent/telldir.c:27-37 | telling, reading on and seeking back restores the position |
| `Signals.Emulation.SigBlock` | compat/signals.c:57-73 | as blocking on a process with a real mask |
| `Signals.Emulation.SigSetMask` | compat/signals.c:75-99 | as setting the mask of such a process, pending signals raised lowest first |
| `Signals.Emulation.Deliver` | compat/signals.c:49-53 | a blocked signal is noted, another reaches its handler |
| `Signals.Execute` | compat/signals.c:48-99 | every program of nested brackets does on the emulation what it does on a real mask |
| `Signals.BracketsRestore` | compat/signals.c:48-99 | mask and handlers are restored |
| `Signals.BlockedHeld` | compat/signals.c:48-73 | a blocked signal is never delivered, and is pending exactly if it arrived |
| `Signals.DeliveredAsDue` | compat/signals.c:75-99 | an unblocked signal is delivered at each arrival, and once for each bracket it arrived in |
| `Signals.PerformAll` | compat/signals.c:48-99 | any sequence of calls and arrivals does on the emulation what it does on a real mask |
| `Signals.CallsDecide` | compat/signals.c:48-99 | for any calls in any order: whether a signal is blocked, waits, and how often it was delivered |
| `Signals.ReleasedInOrder` | compat/signals.c:75-99 | what one sigsetmask lets go comes lowest first, each to its own handler |
| `Signals.OwnersServed` | compat/signals.c:48-99 | no call and no arrival runs another signal's handler |

## Left out

- Name resolution: TCP addresses carry IPv4 literals, a host name is refused; the several addresses of one host are not modelled.
- Sockets, dup, select, kill and getdents are parameters: what the kernel hands out comes in as an argument.
- The encoding of PDUs and the presentation layer: PDUs are values that arrive intact.
- Parameter checks of grouped requests and responses (attributes, passwords, charging, diagnostics): one set of sound parts stands for them.
- The exchange behind F-TERMINATE once it is allowed (A-RELEASE and its charging data), F-U-ABORT, and the recovery and restart units of FTAM.
- Attribute, access-control, password, charging and FADU-identity converters of FTAM: field by field copies.
- The enabled and bridged lists of compat/isotailor.c: easy scans. A built-in community whose macro macro2comm refuses, which stays in the table with a message.
- Buffer overruns: a text or address that overruns a fixed buffer of the source is refused or marked as an overrun; static result buffers and stale union members are not modelled.
- A port or transport set in text that starts with a sign or a blank, and overflow of the `#` selector's accumulator.
- Texts with characters above seven bits in names compared ignoring case.
- `Dirent.DirStream.Tell`: telldir at a block boundary, whose answer is a file position and not an entry; read errors of getdents.
- More signals than fit an int mask, signal handlers that call sigblock themselves, and System V's resetting of handlers on delivery.
- The BSD44 address-length rule of the demultiplexer, addresses of families other than AF_INET, write_dgram_socket.
- ULTRIX and vendor X.25 drivers, the rest of compat/x25addr.c, and compat/tailor.c, a near copy of compat/isotailor.c.
- Memory exhaustion: allocation succeeds.
