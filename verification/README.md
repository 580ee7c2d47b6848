# A verified model of the minibober boot firmware

minibober is a small ARM boot image that brings up an EHCI host controller and scans one USB port. This
project models its three intricate parts in Dafny and proves what they are for:

* **The number tower.** The shift-subtract dividers for ARM (`UnsignedDivide`, `UnsignedRemainder`,
  `SignedDivide`), 64-by-32 division on top of them (`Div64`), decimal conversion by reciprocal
  multiplication (`Decimal`), field layout (`NumberFormat`), whole format strings (`FormatSpec` is the
  meaning, `Vsprintf` the code, `Formats` says format by format what comes out, `FormatJoin` how formats go
  together), reading numbers back (`StringToNumber`), and the round trips over all of it (`RoundTrip`,
  `EndToEnd`).
* **The EHCI driver and USB enumeration.** Pipes and toggles (`UsbPipe`), page splitting
  (`TransferBuffer`), transfer chains and their tokens (`TransferChain`), the descriptor pool and the
  asynchronous schedule across whole sequences of submissions (`AsyncQueue`), the virtual root hub over
  write-one-to-clear port registers (`RootHub`), the configuration parser and the packet size table it feeds
  (`UsbConfig`, `MaxPacket`, `RootDescriptor`), the hub descriptor (`HubDescriptor`), and the routing of
  control messages over whole enumeration sessions (`Routing`).
* **In-place memory and tokenising** (`Memory`, `Tokens`).

`Bits` holds 32- and 64-bit words as bounded integers with bitwise operations defined on binary digits, and
the lemmas that let shifts, masks and disjoint ORs be read as arithmetic; `Options` the usual option type.

Code that updates registers, buffers or static variables in a loop is a method with a loop, and each such
method is proved against a function or predicate that states the result without it. Hardware and attached
devices are inputs: a poll is the next element of a sequence, a reply the next value of an arbitrary
function, and theorems hold for all of them. The code does not check what a device says of itself before
storing it; where that leads outside the storage, or to a descriptor whose length is not that of its
structure, the model stops, and the methods that store say exactly when.

## Where the code and its comments disagree

* `arm/_umodsi3.S:62-67` says that after an early exit none of the fixups match. For divisors 1 to 3 that is
  false: dividend 0xC0000000 with divisor 1 returns 0x40000000. `UModSi3` states the exact answer for every
  input, and `ExactUnlessSpoiled` when it is the remainder; every divisor from 4 on is safe.
* The 13/128 reciprocal of `put_dec_full` is exact only up to 68 (`By13`, `By13Fails`); no sum that arises
  exceeds 63.
* A printed lone "0" followed by "x" and a hexadecimal digit is read as a hexadecimal number, whatever base
  is asked for (`vsprintf.c:94-98`). The round trips say that this is the only exception.
* Clearing the features ENABLE and C_RESET writes back the port register as read (`ehci-hcd.c:794-796`,
  `ehci-hcd.c:809-811`), and so clears every change bit that was seen. Clearing POWER falls through and
  clears the connection change as well (`ehci-hcd.c:800-805`).
* `usb_scan_roothub` after `usb_init` but without a new `ehci_init` would send the root hub's first message
  to the bus, where its missing parent is read (`ehci-hcd.c:414`). `ScanRootHub` states that a scan is safe
  exactly when `rootdev` is zero; `main` always is.
* The status stage of a control IN transfer without data is an IN by section 8.5.3 of USB 2.0; the code
  sends an OUT (`ehci-hcd.c:483`). Such requests are made: by `usb.c:485` for a configuration of total length
  zero, by `usb.c:668` and by `usb.c:1233`. `ConformsUnlessEmptyIn` proves that the code meets the standard
  except for exactly these, `EmptyInExample` shows one.
* `usb_parse_config` does not bound what it stores. `Parse` is defined on every buffer and states exactly when
  it writes outside its tables: when, among the descriptors it comes to, an endpoint precedes the first
  interface or there are more than eight interfaces or sixteen endpoints in one. `NineOverrun` is a buffer
  whose 125 bytes do that; the ninth interface lands in the fields behind the table, such as the parent. A
  total length of zero, or any up to ten, is harmless (`ShortTotal`).
* `usb_set_maxpacket` trusts the numbers of interfaces and endpoints announced (`SetMaxPacket`,
  `NinthAnnounced`), and `usb_hub_init` the length of a hub descriptor and its number of ports
  (`TakeHubDescriptor`): a hub that follows the standard is stored inside the record exactly up to fifteen
  ports (`CompliantFits`, `SixteenPortsOverrun`). The hub descriptor is the last member of the record, so what
  is too much lands behind it, where the next entry of the table begins.
* A failed handshake leaves the list head linked to the queue head and the schedule possibly on
  (`ehci-hcd.c:499-505`, `ehci-hcd.c:526-530`). The next submission clears the queue head first
  (`ehci-hcd.c:341`, `ehci-hcd.c:395`), which breaks the ring under the controller. `ClosedThroughout` proves
  that this happens exactly when a handshake fails before the last message; `BrokenRing` shows it.
* `usb_bulk_msg` promises zero for success and -1 for an error, but tests the status the wrong way round
  (`usb.c:253`): `BulkMsg` proves that it returns zero exactly when the transfer was completed with an error.
* `usb_hub_scan` takes a result of zero for a failure (`usb.c:1379`, `usb.c:1388`, `usb.c:1398`), but a request
  without data that succeeds moves zero bytes. `FinishScan` proves that the scan fails exactly when one of the
  acknowledgements comes back with zero.

## Model

| member | source | states |
|---|---|---|
| `UnsignedDivide.UDivSi3` | arm/_udivsi3.S:18-67 | the floor quotient for every dividend and divisor > 0, zero for divisor 0 |
| `UnsignedDivide.TrialStep` | arm/_udivsi3.S:49-60 | one compare / subtract / OR keeps n = result * d + dividend, the OR being an addition; steps below bit 0 leave the result alone |
| `UnsignedDivide.DivisionLoop` | arm/_udivsi3.S:44-64 | from any aligned start with dividend below twice the divisor the unrolled loop ends with the exact quotient, surplus subtractions included |
| `UnsignedDivide.NibbleShift` | arm/_udivsi3.S:26-35 | shifting by four never overflows and ends above the dividend or at the top nibble |
| `UnsignedDivide.AeabiUidivmod` | arm/_udivsi3.S:75-83 | quotient and true remainder: n = q * d + r and r < d |
| `UnsignedRemainder.UModSi3` | arm/_umodsi3.S:17-82 | what the routine returns for every pair of registers: the remainder if and only if the input is not spoiled, hence for every divisor from 4 on; the exact residue on spoiled inputs; 0 for divisor 0 |
| `UnsignedRemainder.SpoiledExample` | arm/_umodsi3.S:65-67 | 0xC0000000 mod 1 returns 0x40000000 |
| `UnsignedRemainder.LastPass` | arm/_umodsi3.S:41-76 | on the last pass the three fixups add back exactly the surplus subtractions |
| `UnsignedRemainder.EarlyExit` | arm/_umodsi3.S:57-69 | with the bit below 2^30 an early exit needs no fixup and gets none |
| `UnsignedRemainder.FixupTest` | arm/_umodsi3.S:45-75 | a recorded subtraction is seen by its own test exactly when its bit wrapped to the top |
| `SignedDivide.DivSi3` | arm/_divsi3.S:98-140 | the quotient truncated toward zero, minimum / -1 wrapping, over all four paths and both normalisations |
| `SignedDivide.ModSi3` | arm/_modsi3.S:73-99 | the remainder with the dividend's sign for all signed pairs |
| `SignedDivide.DivModSi3` | arm/_divsi3.S:98-135 | the two together: a = q * b + r, r smaller than b in magnitude and signed as a; q is the true quotient except for minimum / -1 |
| `SignedDivide.BothForms` | arm/_modsi3.S:4-69 | the leading-zero-count and the nibble-shifting forms give the same quotient and remainder |
| `SignedDivide.ClzAligns` | arm/_divsi3.S:6-12 | shifting by the difference of leading zeros keeps the divisor in 32 bits and within a factor two below the dividend |
| `SignedDivide.PowerOfTwoTest` | arm/_divsi3.S:106-113 | x & (x - 1) is zero exactly for the powers of two |
| `SignedDivide.Div2OrderByHalving` | arm/_divsi3.S:76-91 | the three comparisons find the logarithm of every power of two |
| `SignedDivide.Leftover` | arm/_modsi3.S:57-69 | the dispatch on a negative order makes exactly the one, two or three steps missing |
| `SignedDivide.AeabiIdivmod` | arm/_udivsi3.S:85-93 | multiplying back in wrapping arithmetic yields the true signed remainder |
| `Div64.Div64By32` | arm/div64.c:21-52 | n = quotient * base + remainder with remainder < base for every 64-bit n and base > 0 |
| `Div64.Double` | arm/div64.c:36-39 | the doubling loop terminates without overflow, above half the remainder |
| `Div64.HighWord` | arm/div64.c:28-34 | the reduction by the high word keeps the value, and its 32-bit product does not overflow |
| `Div64.DoDiv` | div64.h:27-37 | both paths divide exactly |
| `Div64.LlDiv` | div64.h:42-47 | the floor quotient |
| `Decimal.PutDec` | vsprintf.c:218-227 | exactly the canonical decimal digits of any 64-bit number, least significant first, nothing else written |
| `Decimal.PutDecFull` | vsprintf.c:176-216 | the five lowest digits, zeros included, of any number below 100000 |
| `Decimal.PutDecTrunc` | vsprintf.c:140-174 | the canonical digits of any number below 100000 |
| `Decimal.By205` | vsprintf.c:147-149 | the 205/2048 reciprocal is exact on every sum that arises |
| `Decimal.By13` | vsprintf.c:159-160 | the 13/128 reciprocal is exact up to 68 |
| `Decimal.By13Fails` | vsprintf.c:192 | and not at 69 |
| `Decimal.ReversedCanonical` | vsprintf.c:218-227 | the digits specified have no leading zero, lie below the base and have the value they came from |
| `Decimal.CanonicalUnique` | vsprintf.c:218-227 | and no other digit sequence does |
| `Decimal.ChunkOff` | vsprintf.c:222-225 | splitting off five digits at a time composes |
| `NumberFormat.Number` | vsprintf.c:237-327 | writes exactly the specified text and no character more |
| `NumberFormat.NumberTextLength` | vsprintf.c:294-325 | that text is max(width, sign + prefix + max(digits, precision)) long |
| `NumberFormat.OnePadding` | vsprintf.c:298-325 | at most one of the three padding loops writes, and it takes all the slack |
| `NumberFormat.DWordDigitCount` | vsprintf.c:242-292 | no 64-bit number needs more than 22 digits of the temporary |
| `NumberFormat.DecimalBackwards` | vsprintf.c:290-292 | decimal digits from the reciprocal tower and digits by division agree |
| `NumberFormat.PutPower` | vsprintf.c:282-289 | masking and shifting gives the digits in base 8 and 16 |
| `StringToNumber.SimpleStrtoull` | vsprintf.c:90-116 | the value of the longest digit run modulo 2^64 and where it ends |
| `StringToNumber.SimpleStrtoul` | vsprintf.c:33-58 | the same modulo 2^32 |
| `StringToNumber.SimpleStrtol` | vsprintf.c:60-65 | the signed reading of an optional minus sign and a run |
| `StringToNumber.DigitTextAccepted` | vsprintf.c:107-112 | printed digits are all accepted, in either case, and worth the number |
| `StringToNumber.ParsePrinted` | vsprintf.c:94-115 | prefix, zeros and digits parse to their value and stop behind them, unless a lone zero is taken for a prefix |
| `RoundTrip.UnsignedRoundTrip` | vsprintf.c:90-327 | parsing undoes printing for every 64-bit number, base 8, 10 and 16, zero padding and prefixes, if and only if no lone zero is followed by "x" and a hex digit |
| `RoundTrip.SignedRoundTrip` | vsprintf.c:60-327 | the same for all signed 32-bit values through simple_strtol |
| `RoundTrip.TrapExample` | vsprintf.c:94-98 | octal zero in front of "xA" reads as ten |
| `RoundTrip.PrintThenParse` | vsprintf.c:90-327 | the code: print into a buffer, parse the buffer, get the number and the stop position |
| `FormatSpec.DirectiveAt` | vsprintf.c:497-613 | the cursor always advances and never passes the terminating NUL |
| `FormatSpec.TrailingPercent` | vsprintf.c:607-613 | a format cut short behind a percent sign ends there and prints the sign |
| `FormatSpec.PlainText` | vsprintf.c:491-495 | a format without percent signs prints itself |
| `Vsprintf.VSprintf` | vsprintf.c:473-638 | the buffer holds the rendered directives and a NUL, nothing behind it changes, the result is the length; the stores of %n, in order, are the specified ones |
| `Vsprintf.Convert` | vsprintf.c:497-634 | one conversion writes its directive's text, makes its store, and leaves cursor and arguments where the specification says |
| `Vsprintf.PutString` | vsprintf.c:329-346 | padded, cut to the precision |
| `EndToEnd.PercentDParses` | vsprintf.c:60-638 | what "%d" prints for any int is read back as that int |
| `EndToEnd.SprintfThenStrtol` | vsprintf.c:60-638 | the code: vsprintf with "%d", then simple_strtol on the buffer |
| `Formats.NumeralUnique` | vsprintf.c:237-292 | a number has one spelling in a base and case: digits without superfluous zeros, worth the number; the theorems below pin the printed text with it |
| `Formats.DigitTextNumeral` | vsprintf.c:237-292 | and the digits printed are it |
| `Formats.Unsigned` | vsprintf.c:591-606 | "%x" prints every word in base sixteen with small letters, "%X" with capitals, "%o" in base eight, "%u" in base ten |
| `Formats.SignedDecimal` | vsprintf.c:601-632 | "%d", "%i", "%ld" and "%td" print every int, the minimum included, with a minus sign and its magnitude |
| `Formats.Widths` | vsprintf.c:497-521 | "%8x", "%12x" and "%08x": spaces or zeros in front of the digits of any number |
| `Formats.LeftJustified` | vsprintf.c:502-506 | "%-8x" puts the spaces behind, and "%-08x" too |
| `Formats.Precisions` | vsprintf.c:523-536 | "%.5x", "%9.5x" and "%.x": zeros up to the precision, whatever the width |
| `Formats.CapitalWord` | vsprintf.c:591-600 | "%08X" prints capitals, zero-padded to eight columns |
| `Formats.Prefixed` | vsprintf.c:505 | "%#x", "%#X" and "%#o" put "0x", "0X" and "0" in front, of zero too |
| `Formats.PrefixedWidths` | vsprintf.c:298-319 | zeros go behind the prefix, spaces before it |
| `Formats.PlusAndSpace` | vsprintf.c:503-504 | "%+d" and "% d" mark numbers that are not negative; with both flags the plus wins |
| `Formats.SignedWidths` | vsprintf.c:298-325 | zeros go behind the sign, spaces before it |
| `Formats.LongQualifier` | vsprintf.c:617-620 | "%lx" and "%lu" print every word as "%x" and "%u" do |
| `Formats.SizeQualifier` | vsprintf.c:621-622 | "%zd", "%Zd", "%zx" and "%Zu" print the unsigned word |
| `Formats.HalfQualifier` | vsprintf.c:625-628 | "%hx" and "%hu" print the low half-word |
| `Formats.SignedHalf` | vsprintf.c:625-628 | "%hd" prints it with its sign |
| `Formats.QuadQualifier` | vsprintf.c:545-548 | "%llx", "%Lx" and "%llu" print all 64 bits |
| `Formats.SignedQuad` | vsprintf.c:545-548 | "%lld" and "%Ld" print them with their sign |
| `Formats.DifferenceQualifier` | vsprintf.c:623-624 | "%tx" prints the word sign-extended to 64 bits |
| `Formats.WidthArgument` | vsprintf.c:513-515 | "%*x" and "%0*x" take the width from the argument in front |
| `Formats.NegativeWidth` | vsprintf.c:516-519 | a negative one means left-justified in that many columns |
| `Formats.PrecisionArgument` | vsprintf.c:528-534 | "%.*x" takes the precision; a negative one is zero |
| `Formats.BothArguments` | vsprintf.c:509-536 | width, precision and number are taken in this order |
| `Formats.Characters` | vsprintf.c:554-561 | "%c" prints the low byte, "%5c" and "%-5c" with four spaces on the right side |
| `Formats.Strings` | vsprintf.c:563-565 | "%s" prints the whole string, "%7s" and "%-7s" padded |
| `Formats.ShortStrings` | vsprintf.c:336-345 | "%.3s" and "%7.3s" print its first three characters |
| `Formats.Pointers` | vsprintf.c:424-470 | "%p" prints eight small hex digits, "%12p" as many as needed in spaces, and letters behind the p are skipped |
| `Formats.Nulls` | vsprintf.c:333-334 | null strings and null pointers print their names |
| `Formats.NoArgument` | vsprintf.c:586-613 | "%%", unknown conversions and cut formats print as they stand or as a percent sign, and take no argument |
| `FormatJoin.SprintfJoin` | vsprintf.c:491-637 | a format that ends with a whole directive and uses up its arguments, followed by any other with its own: the texts follow each other |
| `FormatJoin.CutShort` | vsprintf.c:607-613 | without wholeness that fails |
| `EndToEnd.FormatReadsBack` | vsprintf.c:33-638 | what "%x", "%X", "%08X", "%lx", "%#x", "%o", "%u" and "%p" print for any word is read back by simple_strtoul to the last character |
| `EndToEnd.SprintfThenStrtoul` | vsprintf.c:33-638 | the same through the code |
| `EndToEnd.TextAfter` | vsprintf.c:491-637 | text behind an integer conversion is printed as it stands |
| `EndToEnd.StatusMessage` | usb.c:221 | text followed by "%08X" prints the text and the status in eight capital hex digits |
| `Memory.MemMove` | string.c:497-515 | the destination receives the old source for every overlap, the rest is unchanged |
| `Memory.MemCpy` | string.c:466-485 | word by word equals byte by byte for every alignment and count |
| `Memory.MemSet` | string.c:405-429 | every byte of the region is the low byte of c, for every alignment and count, the rest is unchanged |
| `Memory.BothAligned` | string.c:472 | the OR of two addresses is aligned exactly when both are |
| `Tokens.TokensAreMaximalRuns` | string.c:319-337 | the token spans are exactly the maximal nonempty delimiter-free runs, in order |
| `Tokens.Tokenizer.Tokenize` | string.c:319-337 | repeated strtok calls return exactly those spans, each NUL-terminated, then NULL |
| `Tokens.Tokenizer.StrTok` | string.c:319-337 | one call from any resumable state |
| `Tokens.FieldsRejoin` | string.c:352-365 | the fields joined by the delimiters between them are the string |
| `Tokens.FieldsClean` | string.c:352-365 | no field holds a delimiter |
| `Tokens.SepAll` | string.c:352-365 | repeated strsep calls return all fields, empty ones included |
| `Tokens.MendRestores` | string.c:352-365 | writing the list of delimiters back in front of the returned fields restores the original buffer |
| `UsbPipe.PackedPipes` | usb.h:235-290 | every field the macros OR into a pipe is read back, for every kind, device and endpoint |
| `UsbPipe.DefaultPipes` | usb.h:238-264 | the default control pipe goes to device 0, endpoint 0 |
| `UsbPipe.SetThenGet` | usb.h:267-271 | setting one endpoint's toggle sets it and no other |
| `TransferBuffer.TdBuffer` | ehci-hcd.c:345-370 | with five pointers it succeeds if and only if the size is at most 20480 less the page offset, and which pointers it fills |
| `TransferBuffer.PointersTile` | ehci-hcd.c:352-362 | the pointers tile the buffer, byte by byte |
| `TransferBuffer.PagePointer` | ehci-hcd.c:353-355 | every pointer after the first is page-aligned |
| `TransferChain.TokenFields` | ehci-hcd.c:454-459 | with a length below 2^15 the controller reads back every field of a token |
| `TransferChain.LengthSpills` | ehci-hcd.c:454-455 | a length of 2^15 would have become the toggle |
| `TransferChain.ConformsUnlessEmptyIn` | ehci-hcd.c:424-487 | the transactions asked for are those of sections 8.5.2 and 8.5.3 of USB 2.0 if and only if the transfer is not a control IN without data |
| `TransferChain.EmptyInExample` | ehci-hcd.c:478-484 | such a transfer ends with an OUT where the standard has an IN |
| `TransferChain.LinkedTransactions` | ehci-hcd.c:424-487 | a controller walking a linked chain reads exactly the transactions asked for, and those of the standard under the same condition; no linked length exceeds 20480 |
| `TransferChain.ChainWalk` | ehci-hcd.c:430-486 | walking a chain and the list of its stages agree |
| `AsyncQueue.ChainGrows` | ehci-hcd.c:441-442 | storing through the tail pointer appends one stage |
| `AsyncQueue.LinkedSuffix` | ehci-hcd.c:508-519 | wherever the controller stops, a terminated chain is left |
| `AsyncQueue.Handshake` | ehci-hcd.c:245-265 | zero if and only if some poll within the limit sees the bits and all before it a live controller; each error code names the poll that ended it |
| `AsyncQueue.Ehci.AllocTd` | ehci-hcd.c:316-343 | the next cleared descriptor of the three, none when all are taken |
| `AsyncQueue.Ehci.BuildChain` | ehci-hcd.c:418-487 | fails only when the data does not fit, never for want of descriptors; otherwise the chain is the request's stages in order |
| `AsyncQueue.Ehci.Unlink` | ehci-hcd.c:570-576 | the failure loop ends with an empty queue head |
| `AsyncQueue.Ehci.Settle` | ehci-hcd.c:534-566 | once the active bit is off the status is 0 exactly without any of the bits 0xfc, 2 for 0x40, 4 for 0xa0 and 0x20, 8 for 0x50 and 0x10, and 0x20 otherwise; the length is what the token leaves, the toggle its top bit after a clean transfer, other toggles stay |
| `AsyncQueue.Ehci.SubmitAsync` | ehci-hcd.c:373-579 | the ring is closed at every return, and every store to it is stated; entered with the schedule off, the controller runs exactly once if the data fit and else not, and the memory it then finds is the closed ring with the stages of this request; unlinking on failure; the result and the device's status, by the token's bits |
| `AsyncQueue.Ehci.SubmitAll` | ehci-hcd.c:373-579 | over any sequence to any devices each call succeeds exactly when its own buffer fits and its own controller run completes, and the ring is closed after every call; it is closed after every single store if and only if the schedule is off at first and no handshake fails before the last message, and then the controller finds the transfers that fit, in order |
| `AsyncQueue.ErrorBits` | ehci-hcd.c:535-537 | the masks of the token are its bits 2 to 7 and bit 7 |
| `AsyncQueue.Ehci.ControlMsg` | usb.c:181-227 | with a timeout the result is the bytes moved if and only if the pipe is a control pipe and the transfer is completed without error, else -1; without one, the size once it is completed at all |
| `AsyncQueue.Ehci.BulkMsg` | usb.c:234-258 | zero if and only if the transfer is completed with an error; the actual length whenever it is completed |
| `AsyncQueue.ClosedOnce` | ehci-hcd.c:395-489 | every store of one call keeps the ring closed if and only if the list head leads to itself at entry |
| `AsyncQueue.ClosedThroughout` | ehci-hcd.c:395-578 | over a sequence exactly when it is undisturbed by failed handshakes |
| `AsyncQueue.BrokenRing` | ehci-hcd.c:499-505 | two transfers, the first to a controller that never answers: the second breaks the ring |
| `RootHub.ReportedReset` | ehci-hcd.c:724-811 | over every run the C_RESET bit decoded from a status reply is set if and only if a reset of that port succeeded since the last clear |
| `RootHub.ReportedConnection` | ehci-hcd.c:686-805 | a connection change latched and not acknowledged is reported by every later status reply |
| `RootHub.ResetBit` | ehci-hcd.c:774-811 | the same for the reset record itself, between any calls |
| `RootHub.LatchStays` | ehci-hcd.c:686-819 | over every run a change bit stays until a call that acknowledges it, which clears it |
| `RootHub.OnlyAcknowledged` | ehci-hcd.c:730-805 | SET_FEATURE and status queries lose no change bit, clearing C_CONNECTION loses that one only |
| `RootHub.ClearFollows` | ehci-hcd.c:791-816 | which change bits each CLEAR_FEATURE clears, ENABLE and C_RESET clearing all they saw |
| `RootHub.ResetPulse` | ehci-hcd.c:758-768 | a reset raises the reset bit with the port disabled and lowers it, moving nothing else |
| `RootHub.StatusBytes` | ehci-hcd.c:687-728 | the status bytes decode, as usb.c decodes them, to what register and reset record say |
| `RootHub.ReportedBits` | ehci.h:144-156 | which register bit each reported flag is |
| `RootHub.SetBits` | ehci-hcd.c:730-785 | what SET_FEATURE writes for ENABLE, POWER and RESET, bit by bit |
| `RootHub.ClearBits` | ehci-hcd.c:791-816 | what each CLEAR_FEATURE writes, bit by bit |
| `RootHub.WrittenBits` | ehci.h:145-155 | after a write the enable and power bits are those written |
| `RootHub.DeviceRead` | ehci-hcd.c:94-109 | the fields of the hub's device descriptor |
| `RootHub.NamesRead` | ehci-hcd.c:634-648 | its two names |
| `RootHub.StringRead` | ehci-hcd.c:639-648 | a string descriptor read character by character |
| `RootHub.Hub.SetPortFeature` | ehci-hcd.c:730-790 | the accesses made and the effect on latches and reset record |
| `RootHub.Hub.ClearPortFeature` | ehci-hcd.c:791-819 | the accesses made and the effect on latches and reset record |
| `RootHub.Hub.SubmitRoot` | ehci-hcd.c:592-844 | which requests are known, the answer cut to the shortest of three lengths, the device's status and length; what the answers mean to their readers is in `RootRecord`, `DeviceRead`, `NamesRead`, `ParseRoot` and `StatusBytes` |
| `RootHub.Hub.UsbControl` | usb.c:181-227 | a control message to the hub yields as many bytes of its descriptors, the hub descriptor included, as it asks for |
| `RootHub.Hub.ServeAll` | ehci-hcd.c:592-844 | any sequence of requests is a run of the hub, and its status replies are those of the states in between |
| `UsbConfig.CollectGroups` | usb.c:364-409 | collecting a well-formed configuration's descriptors rebuilds interfaces, setting counts and endpoints in order; unknown ones leave no trace |
| `UsbConfig.ReadSerial` | usb.c:363-408 | descriptors laid one after the other are read back from their bytes, whatever follows |
| `UsbConfig.DescriptionParses` | usb.c:339-411 | every description is laid out in its own bytes and collects to its tables |
| `UsbConfig.Config.Parse` | usb.c:339-411 | on every buffer the parser ends as its bytes determine: refused, filled with exactly the collected tables, writing outside them if and only if the descriptors are not contained, or at a descriptor of odd length |
| `UsbConfig.NineOverrun` | usb.c:366-390 | a buffer of 512 bytes, 125 of them a configuration with nine interfaces, is written outside the table |
| `UsbConfig.ShortTotal` | usb.c:363-364 | a total length of up to ten fills empty tables |
| `UsbConfig.ParseDescribed` | usb.c:339-411 | parsing undoes serialising |
| `MaxPacket.LimitIsLargest` | usb.c:287-333 | by address and attribute bytes: without control endpoints on number n, input[n] becomes the largest of its former value and the sizes of the endpoints with that number and bit 7, output[n] of those without it |
| `MaxPacket.LimitSinceControl` | usb.c:294-298 | with some, both count from the last of them on |
| `MaxPacket.AnnouncedAreDefault` | usb.c:323-333 | the loops visit exactly the default settings' endpoints although the tables hold all |
| `MaxPacket.SetMaxPacket` | usb.c:323-333 | reads outside the arrays if and only if the descriptors announce more than they hold, and otherwise applies the entries visited in order, stale ones included |
| `MaxPacket.NinthAnnounced` | usb.c:327-330 | nine bytes that announce nine interfaces lead outside |
| `MaxPacket.LimitsOf` | usb.c:339-411 | parsing and limits together: an honest device gets the sizes of its default settings |
| `RootDescriptor.RootBytes` | ehci-hcd.c:110-140 | the virtual hub's configuration bytes are a well-formed description |
| `RootDescriptor.ParseRoot` | usb.c:1413-1439 | parsing them yields an interface that passes the hub test |
| `RootDescriptor.RootLimits` | usb.c:287-333 | of a cleared record they set input[1] to 8 and no other limit |
| `RootDescriptor.RootRecord` | ehci-hcd.c:660-665 | the hub descriptor the virtual hub answers is read as eight bytes of type 0x29 with its number of ports and its characteristics, and fits up to 31 ports |
| `Routing.RequestNumbers` | usb.c:1007-1047 | the requests sent, as numbers |
| `Routing.Usb.Message` | ehci-hcd.c:928-943 | where a message goes and what SET_ADDRESS does to rootdev |
| `Routing.Usb.FindPort` | usb.c:861-873 | the child search stays inside the eight children whatever the hub announced, and finds the place if and only if it is among the ports announced |
| `Routing.Usb.Alloc` | usb.c:761-789 | the next record with its address, parent and place, and no children; none if and only if the table or the places run out |
| `Routing.Usb.ScanDevice` | usb.c:799-960 | scanning keeps every message on its way: the root hub's first scan brings it up, later devices reach the bus with a parent; with the virtual hub's answers the root scan succeeds. It succeeds only if the device greets, comes up again, accepts its address, gives 18 bytes and takes its configuration, certainly if the configuration fits too, and then leaves the packet size code of byte 7 of the first reply and has asked for exactly these things |
| `Routing.Usb.HubPortReset` | usb.c:1076-1126 | succeeds if and only if one of five tries finds the port enabled and each before it connected, unchanged and not enabled; a reset request precedes the first look |
| `Routing.Usb.ConnectChange` | usb.c:1130-1203 | zero if and only if the status was read, the port is not connected, and is not enabled or had a device; one only if the port is reset and the device scanned, and certainly if a record is free, the port announced and the configuration fits; then the next record, with the speed reported |
| `Routing.Usb.TakeConfiguration` | usb.c:930-933 | the configuration is parsed and its packet sizes are set inside the record whenever it fits, and the model follows only then |
| `Routing.DescribedFits` | usb.c:930-933 | every honest description of at most 512 bytes fits |
| `HubDescriptor.TakeHubDescriptor` | usb.c:1226-1255 | the hub descriptor and its bitmaps stay inside the record if and only if it is at most eleven bytes and its ports need at most four bitmap bytes, and which bytes they leave there |
| `HubDescriptor.CompliantFits` | usb.c:1238-1253 | for a hub that follows the standard exactly when it has at most fifteen ports |
| `HubDescriptor.SixteenPortsOverrun` | usb.c:1238 | a hub with sixteen ports is written behind the record |
| `Routing.Usb.ScanRootHub` | usb.c:963-991 | the log is kept, and all messages are safe if and only if rootdev was zero; then, if the messages that reach the virtual hub get its answers, the root hub is found, and rootdev is its address |
| `Routing.Usb.HubInit` | usb.c:1206-1320 | zero if and only if the two descriptor requests and the status succeed; then exactly the announced ports are powered, in order; on the virtual hub, with up to 31 ports, all of its ports |
| `Routing.Usb.FinishScan` | usb.c:1376-1405 | fails if and only if an acknowledgement brings zero bytes, and which acknowledgements are sent |
| `Routing.Usb.HubScan` | usb.c:1326-1410 | a port scan keeps the log and every message on its way; a device it returns is new, has its own address and hangs on this port of this hub. Without other changes on the port it returns nothing if the connection did not change, and else exactly what the connection change comes to; that starts with the status, the acknowledgement and a reset |
| `Routing.Usb.Boot` | main.c:13-65 | from a fresh controller and a virtual hub that answers, a device that comes up on port 0 and describes itself well is found as record 1, and nothing is found on a port whose connection did not change |
| `Routing.Usb.Session` | main.c:13-65 | over any rounds of initialisation and scans, nested hubs included, whatever devices answer: of all control messages sent the root hub's reach the virtual hub, all others the bus with a parent, and none carries another device's address, up to the first device whose description is stored outside its record or ends oddly |

## Left out

- Vsprintf.VSprintf: MAC and IP address printing is compiled out; widths and precisions do not overflow an int; pointers of %n lie outside the buffer.
- Memory.MemCpy: stated for a destination in front of the source or disjoint regions; other overlaps are undefined in C.
- UnsignedDivide.UDivSi3: the trap routine that all four dividers call for divisor 0 hangs; the models return the value set behind the call.
- StringToNumber.SimpleStrtoul: ustrtoul and its size suffixes are not modelled.
- AsyncQueue.Ehci.SubmitAsync: the endpoint words of the queue head, the waiting loop with its delays, cache maintenance (compiled out) and the register access log are not modelled; of a device only toggles, status and length.
- AsyncQueue.Ehci.SubmitAll: what a controller left on by a failed handshake does to the memory between its own runs is not modelled, so nothing is claimed of what it finds then.
- AsyncQueue.Ehci.ControlMsg: the eight setup bytes are an input, and messages to the root hub are the subject of RootHub; a status that changes while the caller waits is not modelled, it has changed before.
- RootHub.Hub.SubmitRoot: the reset polls are inputs not tied to the register's other reads; a port request with index 0 reaches CONFIGFLAG, of whose value only the accesses logged are stated.
- RootHub.Hub.ClearPortFeature: clearing C_ENABLE writes PE, and over-current is cleared under feature 3 while usb.c sends 19; the branches are modelled as they are and no more is claimed of them.
- UsbConfig.Config.Parse: interface descriptors of other than nine bytes, endpoint descriptors of other than seven, configuration descriptors of other than nine and reading behind the buffer end the model, as a write outside the tables does; what the code does behind them is not modelled.
- MaxPacket.SetMaxPacket: what is read outside the arrays is not modelled.
- Routing.Usb.HubScan: on a port with further changes the result is stated by the parts, EnableAgain and FinishScan.
- Routing.Usb.Session: nothing is said of messages after something was stored outside a record (in the fields behind the tables of the same record, or, for a hub descriptor, behind the record); which string descriptors are asked for is arbitrary; register accesses behind a message are the subject of RootHub and AsyncQueue.
- The controller start-up of ehci_init beyond `rootdev`, and the check in ohci-test.c.
- strcmp, strncmp, strstr, strswab, strchr and the copying routines of string.c, ctype beyond what the number reader needs: easy or finite.
- UART, console, tube and board code, boot assembly, the linker script and the simulation scripts.
