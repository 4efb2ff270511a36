# A verified model of the Xv64 kernel core

Xv64 is a small 64-bit teaching operating system. This project models its
core in Dafny and proves properties of that model.

- **Network stack:**
  - Ethernet framing and the device, interface and protocol registries.
  - The ARP table and its query protocol.
  - IPv4 address parsing, routing, receive checks and MTU segmentation.
  - ICMP echo.
  - The UDP and TCP control-block tables, with the TCP state machine, receive window, retransmission list and accept backlog.
- **Storage:**
  - The fs1 file system: block bitmap, inode cache, block map, readi/writei and directories.
  - The mkfs image builder, which lays out the same format.
- **Kernel data structures:** the page allocator, the pipe ring, console line editing, the process table and scheduler pass, system-call argument checks, and the ACPI RSDP/MADT walk.
- **Libraries and tools:**
  - The kernel and user string, ctype and integer-formatting routines.
  - The ed line editor's parser and buffer, less's list navigation and krandom's generator step.

Each source file becomes one module. Code that computes values becomes
datatypes, functions and lemmas. A table or object that the C updates in
place becomes a class with `modifies` clauses. Its methods are proved
against specification functions. Lemmas about those functions carry the
properties: round trips, preserved invariants, the lowest free slot, and
"nothing else changes".

The model only sees what the environment gives it:
- Transmission appends to an output log.
- kalloc's success is a boolean parameter.
- The clock is a parameter.
- A call that would sleep returns a blocked or would-block result.
- Locks are left out: every operation runs as one atomic step.

Where the code has a defect, the model does two things. It models the code
as written and proves the defect with a concrete input. It also states the
corrected behaviour and proves that correct. See "## Findings".

Two helper modules support the rest:
- Common holds the machine integer types and big-endian byte helpers.
- Checksum holds the RFC 1071 Internet checksum.

The C routine cksum16 is not part of this model. Checksum is specified from
section 2 of RFC 1071, and the model cites cksum16's call sites instead.

## Model

| member | source | states |
|---|---|---|
| Common.Be16 | kernel/klib.c:95-105 | two bytes, high byte first, that read back as the value |
| Common.Be32 | kernel/tcp.c:168-169 | four bytes, most significant first, that read back as the value |
| Common.GetBe16 | kernel/klib.c:95-99 | reading a big-endian 16-bit value at i and encoding it again gives the two bytes |
| Common.GetBe32 | kernel/tcp.c:260 | reading a big-endian 32-bit value at i and encoding it again gives the four bytes |
| Common.Zeros | kernel/tcp.c:164 | n bytes, every one zero |
| Platform.ByteSwap16 | include/platform.h:8 | the result's high byte is the argument's low byte and its low byte the argument's high byte |
| Platform.ByteSwap32 | include/platform.h:9 | the four byte lanes of the result are those of the argument in reverse order |
| Platform.ByteOrdersDistinct | include/platform.h:2-5 | the two byte-order tags are different, so byteorder's answer decides the swap |
| Platform.ByteSwap16Involutive | kernel/klib.c:95-105 | swapping twice gives the value back, so ntoh16 undoes hton16 |
| Platform.ByteSwap32Involutive | include/platform.h:9 | swapping the 32-bit lanes twice gives the value back |
| Buf.GetDevType | include/buf.h:16-21 | the device type is the top four bits of the device word, below 16 |
| Buf.GetDevNum | include/buf.h:17-22 | the device number is the low 28 bits of the device word |
| Buf.ToDevNum | include/buf.h:23 | GetDevType recovers a type below 16 and GetDevNum recovers the number masked to its low 28 bits |
| Buf.MasksPartitionWord | include/buf.h:16-23 | the type and number masks are disjoint and together cover all 32 bits |
| Buf.FlagsAreDistinctBits | include/buf.h:12-14 | B_BUSY, B_VALID and B_DIRTY are distinct single bits |
| Numerals.DigitChar | kernel/klib.c:20 | the digit character for d reads back as d in DigitValue |
| Numerals.DigitValue | kernel/klib.c:81-84 | the value of a digit or letter (below 36), -1 for any other character |
| Numerals.DivMod | kernel/klib.c:35-37 | the facts about division by the base that the digit loop relies on |
| Numerals.Digits | kernel/klib.c:34-37 | the digits printint writes for x are all digits of the base, with at least one |
| Numerals.ValueOfSnoc | kernel/klib.c:81-84 | appending one digit multiplies the value by the base and adds the digit |
| Numerals.Reverse | kernel/klib.c:43-45 | the reversal printint does when copying out has the same length, element i from the other end |
| Numerals.ReverseAt | kernel/klib.c:43-45 | element k of the reversal is element len-1-k of the input |
| Numerals.ReverseSnoc | kernel/klib.c:43-45 | reversing s + [c] puts c first |
| Numerals.Pow | kernel/console.c:85-105 | base^k is at least 1 for a base of at least 1 |
| Numerals.ValueOfDigits | ulib/unix/stdio.c:23-50 | reading back the digits printint emits gives the number |
| Numerals.DigitsLength | kernel/klib.c:21 | a value below base^k needs at most k digits, so 16 chars hold any 32-bit number |
| Numerals.NoLeadingZero | kernel/klib.c:34-37 | only zero is written with a leading '0' |
| Checksum.Fold | kernel/ip.c:280 | folding leaves at most 16 bits, keeps the value mod 0xffff and is zero exactly when its input is |
| Checksum.WordSumInsert | kernel/ip.c:356 | writing a 16-bit value c into a zeroed word at an even offset adds c to the word sum |
| Checksum.WordSumSameFrom | kernel/udp.c:59 | the word sum from i on depends only on the bytes from i on |
| Checksum.CompletedChecksumVerifies | kernel/ip.c:280-356 | a header whose sum field is set to the computed checksum verifies to 0 on receipt |
| Checksum.FoldOfComplement | kernel/tcp.c:184-449 | x plus the complement of its fold folds to 0xffff, the step that makes a completed checksum verify |
| Ctype.ToChar | ulib/unix/ctype.c:2-12 | the char a C int becomes agrees with it modulo 256 |
| Ctype.IsSpace | ulib/unix/ctype.c:2-12 | isspace is 1 exactly for space, tab, newline, vertical tab, form feed and carriage return, after truncation to a char |
| Ctype.IsDigit | ulib/unix/ctype.c:15-23 | isdigit is 1 exactly for '0' to '9', without truncation |
| Ctype.IsSpaceIgnoresHighBits | ulib/unix/ctype.c:2-12 | isspace ignores all but the low 8 bits |
| Ctype.IsDigitDoesNotTruncate | ulib/unix/ctype.c:15-23 | isdigit does not: 256 + '0' is not a digit |
| Ctype.SpaceAndDigitDisjoint | ulib/unix/ctype.c:2-23 | no character is both |
| CString.Memcmp | ulib/string.c:4-16 | memcmp returns 0 exactly when the first n bytes agree, and otherwise the difference of the bytes at the first position where they differ |
| CString.Replicated | ulib/string.c:21-22 | the fill word holds the byte in each of its four lanes |
| CString.LowByte | ulib/string.c:21-22 | a byte shifted into a word reads back from its lane |
| CString.Memset | ulib/string.c:19-26 | memset, by words or by bytes, sets the first n bytes to c mod 256 and nothing past them |
| CString.Memmove | ulib/string.c:28-44 | memmove copies the n source bytes as they were before the call, overlapping or not, and changes nothing outside the destination |
| CString.Strlen | ulib/string.c:46-52 | strlen is the position of the first NUL |
| CString.Strcpy | ulib/string.c:54-61 | strcpy writes the string and its NUL and nothing after them |
| CString.FirstNul | ulib/string.c:65-68 | the first NUL of dest below the limit, or the limit |
| CString.Strcat | ulib/string.c:63-77 | strcat_s writes nothing at or past max_len, and changes nothing when dest has no NUL below max_len |
| CString.StrcatS | ulib/string.c:63-77 | the loop changes dest as Strcat says |
| CString.StrcatJoins | ulib/string.c:63-77 | when both fit below max_len the result reads as dest followed by right |
| CString.UpToNulAt | ulib/string.c:46-52 | a string whose first NUL is at m reads as its first m characters |
| CString.Strncpy | ulib/string.c:79-88 | strncpy copies the first n characters of the string and pads with NULs to n, writing nothing past n |
| CString.Strncmp | ulib/string.c:90-96 | strncmp returns 0 exactly when the strings agree within n characters, and otherwise the difference at the first position where they differ |
| CString.NulFree | ulib/string.c:90-96 | k characters without NUL lie inside the string |
| CString.SameWithin | ulib/string.c:91-92 | agreeing non-NUL characters agree within i |
| CString.NulWithin | ulib/string.c:91 | a string ending at i reads the same within any n > i |
| CString.Diverge | ulib/string.c:90-96 | strings that differ within k differ within n >= k |
| CString.Atoi | ulib/string.c:98-105 | atoi returns the value of the leading digit run |
| CString.AtoiReadsDigits | ulib/string.c:98-105 | atoi reads back a rendered number followed by a non-digit |
| CString.Strchr | ulib/string.c:107-112 | strchr returns the first position of c before the NUL, or 0 when there is none |
| CString.Strstr | ulib/string.c:114-126 | strstr returns the first position where str2 occurs, or 0 when it occurs nowhere before the NUL |
| CString.OccursIffWithin | ulib/string.c:119 | str2 occurs at i exactly when strncmp of the two over strlen(str2) is 0 |
| UnixString.LineEnd | ulib/unix/string.c:19-26 | the read stops at the limit, at the end of input, or just after a newline or carriage return, with none before |
| UnixString.GetsLine | ulib/unix/string.c:15-29 | the line gets reads is a prefix of the input of at most limit characters, ending in a newline or carriage return unless cut short |
| UnixString.Gets | ulib/unix/string.c:15-29 | gets stores the line of at most max - 1 characters followed by a NUL and nothing after it |
| UnixString.Safestrcpy | ulib/unix/string.c:73-83 | safestrcpy writes each position as SafeCopied says, and for n > 0 the result reads as the source cut to n - 1 characters |
| UnixString.SafestrcpyTerminates | ulib/unix/string.c:79-81 | copied characters followed by a NUL read as the truncated source |
| UnixString.Strcmp | ulib/unix/string.c:125-127 | strcmp is strncmp over 2^32 - 1 characters: 0 exactly when the strings agree, for strings shorter than that |
| CText.UpToNul | ulib/string.c:46-52 | a C string's contents are the prefix before its first NUL, and nothing in them is NUL |
| CText.SkipSpace | kernel/ip.c:58 | the white-space run strtol skips ends at the first non-space |
| CText.DigitEnd | kernel/ethernet.c:23 | the digit run of the base ends at the first non-digit |
| CText.Strtol | kernel/ip.c:58 | ISO C strtol: no digits gives 0 at the start; otherwise the end follows the last digit read |
| CText.DigitsReadAt | kernel/ip.c:58 | a rendered numeral followed by a non-digit is read back whole |
| CText.StrtolReadsAt | kernel/ip.c:58 | strtol reads back a rendered number at position i |
| CText.StrtolUnsigned | kernel/ip.c:58 | strtol of a digit run is the run's value, ending after it |
| CText.DigitRun | kernel/ip.c:58 | a nonempty digit run is all digits |
| CText.StrtolReadsNegativeAt | user/ed/ed.c:138 | strtol reads back "-x" as -x |
| CText.StrtolNegative | user/ed/ed.c:138 | strtol of a sign and a digit run is the negated value |
| CText.StrtolOfDigits | kernel/ip.c:58 | strtol of a rendered number followed by a non-digit returns it and its length |
| CText.NotSpaceOrSign | kernel/ip.c:58 | a digit is neither white space nor a sign |
| CText.DigitEndOver | kernel/ip.c:58 | a run of digits ending before a non-digit is the digit run |
| Klib.DecimalRun | kernel/klib.c:76-84 | the digit run starts after the white space and ends at the first non-digit; its value is not negative |
| Klib.IsDigitMatchesBase10 | kernel/klib.c:61-69 | isdigit accepts exactly the decimal digits |
| Klib.StrtolAsWritten | kernel/klib.c:72-87 | strtol returns the decimal value of the digit run whatever base is, and leaves the caller's end pointer as it was |
| Klib.StrtolIgnoresBase | kernel/klib.c:72-87 | "ff" in base 16 reads as 0, where ISO C strtol gives 255 |
| Klib.ByteOrder | kernel/klib.c:89-92 | byteorder reports little-endian exactly on a little-endian host |
| Klib.Ntoh16 | kernel/klib.c:95-99 | on a little-endian host ntoh16 swaps the two bytes; otherwise it is the identity |
| Klib.Hton16 | kernel/klib.c:101-105 | on a little-endian host hton16 swaps the two bytes; otherwise it is the identity |
| Klib.NtohReadsNetworkOrder | kernel/klib.c:89-99 | on either host, ntoh16 of the value loaded from bytes b0 b1 is b0 * 256 + b1, the big-endian reading |
| Klib.HtonNtohInverse | kernel/klib.c:95-105 | hton16 and ntoh16 are inverse to each other |
| Klib.Snprintf | kernel/klib.c:218-224 | snprintf returns the length of the formatted output and leaves the buffer as the as-written vprintf does, reporting a terminator written past the buffer and a store past a conversion's local buffer |
| Printf.Magnitude | kernel/klib.c:25-31 | the unsigned value printint formats fits 32 bits |
| Printf.RenderLength | kernel/klib.c:19-46 | printint writes between 1 and 11 characters, at most 10 of them digits |
| Printf.StoreDigits | kernel/klib.c:33-36 | the do-while loop stores the digits least significant first: reversed, they are the number's digits |
| Printf.StoreStep | kernel/klib.c:34-36 | one round stores the next digit from the right and the loop goes on exactly while digits remain |
| Printf.MirrorIsReverse | kernel/klib.c:41-43 | a sequence that mirrors another is its reverse |
| Printf.DigitsUnfold | kernel/klib.c:34-36 | the digits of x are those of x / base followed by the digit of x % base |
| Printf.CopyReversed | kernel/klib.c:41-43 | the copy loop writes the reverse of buf into outbuf and nothing past len |
| Printf.PrintInt | kernel/klib.c:19-46 | printint writes the sign and digits of the number into outbuf and returns their count |
| Printf.Cells | kernel/klib.c:163-173 | each character of a string is one output cell |
| Printf.Step | kernel/klib.c:117-209 | one format character only appends to the output and takes at most one argument |
| Printf.Text | kernel/klib.c:117-209 | the characters produced, one per cell |
| Printf.StoredIn | kernel/klib.c:126-128 | the buffer keeps its length |
| Printf.AsWrittenBuffer | kernel/klib.c:211-214 | the buffer keeps its length |
| Printf.StoredInSnoc | kernel/klib.c:126-129 | one more character is stored exactly when it is stored and len < maxlen |
| Printf.StoredInUnstored | kernel/klib.c:133-145 | characters that are only counted leave the buffer alone |
| Printf.Put | kernel/klib.c:126-129 | storing a character advances len and updates the buffer as StoredIn says |
| Printf.ShadowedCopy | kernel/klib.c:134-157 | the %d and %x/%p copy loop stores the letter at every len below maxlen into its 16-character local buf, advances len by the segment length, and reports overrun exactly when one of those len is 16 or more |
| Printf.CopyString | kernel/klib.c:159-173 | %s stores the characters of the string up to its NUL and counts them |
| Printf.VprintfBuffer | kernel/klib.c:109-216 | vprintf in buffer mode returns the output length, leaves the buffer as AsWrittenBuffer says, reports a terminator written past the buffer, and reports overrun exactly when some conversion stores past its local buffer (Overruns) |
| Printf.RunLiteral | kernel/klib.c:119-131 | text without % is produced and stored unchanged |
| Printf.NullStringPrintsNull | kernel/klib.c:160-162 | %s of a null pointer prints "(null)" |
| Printf.PercentAndUnknown | kernel/klib.c:183-207 | %% gives one %, an unknown %c gives % and c |
| Printf.StrtolReadsRender | kernel/klib.c:19-46 | ISO C strtol reads back the decimal number printint rendered, stopping right after it |
| Printf.OnlyCharTakesAsWritten | kernel/klib.c:174-182 | without %c the as-written and corrected formatters produce the same text and take the same arguments |
| Printf.FixedIgnoresMaxlen | kernel/klib.c:174-182 | with the argument always taken, %c's output no longer depends on maxlen |
| Printf.AsWrittenStaysWithin | kernel/klib.c:211-214 | nothing past buf[maxlen] is ever written |
| Printf.LocalOverrunAsWritten | kernel/klib.c:134-143 | as written snprintf(b, 32, "0123456789ABCDEF%d", 1) stores at index 16 of the 16-character local buf |
| Printf.NoOverrunWithinLocal | kernel/klib.c:134-157 | with a limit of at most 16 no conversion stores past its local buf, for every format and arguments |
| Printf.DigitsNeverStored | kernel/klib.c:133-145 | as written snprintf(buf, 4, "%d", 5) leaves the caller's first byte alone: the digit goes to the shadowing local buf |
| Printf.TerminatorOneTooFar | kernel/klib.c:213 | as written snprintf(buf, 4, "ab") puts the NUL at buf[3], leaving buf[2] unterminated |
| Printf.CharArgumentReused | kernel/klib.c:178-180 | as written with maxlen 0, %c does not take its argument, so "%c%d" with 65, 7 gives "A65" |
| Printf.RenderSixtyFive | kernel/klib.c:19-46 | 65 renders as "65" |
| Printf.CharArgumentTakenOnce | kernel/klib.c:174-182 | with the argument always taken "%c%d" with 65, 7 gives "A7" |
| Printf.CharThenPercent | kernel/klib.c:117-132 | a trailing % leaves the formatter in the percent state without output |
| Printf.IntendedBuffer | kernel/klib.c:211-214 | the buffer keeps its length |
| Printf.IntendedSnprintf | kernel/klib.c:218-224 | the buffer keeps its length |
| Printf.IntendedHoldsTruncatedText | kernel/klib.c:109-224 | the intended snprintf leaves the buffer holding the output cut to maxlen - 1 characters and NUL-terminated, and returns the full length |
| Printf.UpToNulOfPrefix | kernel/klib.c:213 | a buffer whose first NUL is at m reads as its first m characters |
| Stdio.Snprintf | ulib/unix/stdio.c:176-182 | the user-space snprintf returns the output length and leaves the buffer as the shared as-written vprintf does, with the same two overrun reports |
| Net.Netif.constructor | include/net.h:1-54 | a new IPv4 interface has its family, no device and zero addresses |
| Net.Netdev.Zeroed | kernel/net.c:27-31 | the page kalloc returns, cleared by memset: every field zero and no interface |
| Net.Netdev.AddNetif | kernel/net.c:78-96 | -1 exactly when an interface of the same family is attached, with nothing changed; otherwise the interface goes to the head of the list and points to the device |
| Net.Netdev.GetNetif | kernel/net.c:98-107 | netdev_get_netif gives FirstOfFamily: the first interface of the family, or null when none has it |
| Net.FirstOfFamily | kernel/net.c:101-106 | the interface returned is in the list, has the family and no earlier one does; null exactly when none has it |
| Net.NameOf | kernel/net.c:33 | the name buffer snprintf leaves is 16 characters |
| Net.Registry.constructor | kernel/net.c:16-25 | no device, no protocol and the index counter at 0 |
| Net.Registry.Root | kernel/net.c:19-21 | null exactly when no device is registered, else the head of the list |
| Net.Registry.NetdevAlloc | kernel/net.c:23-36 | null with nothing changed when kalloc fails; otherwise a new zeroed device with the counter's value as index (the counter wrapping at 2^32) and the name snprintf gives it |
| Net.Registry.Register | kernel/net.c:38-43 | the device goes to the head of the list; 0 |
| Net.Registry.ByIndex | kernel/net.c:45-53 | the first device with the index, or null when there is none |
| Net.Registry.ByName | kernel/net.c:55-63 | the first device whose name strcmp finds equal, or null when there is none |
| Net.Registry.Receive | kernel/net.c:65-76 | the first protocol whose hton16 Ethertype equals the frame's type gets the packet and its length; none is called when no entry matches |
| Net.Registry.ProtoRegister | kernel/net.c:109-126 | 0 exactly when the Ethertype is new and kalloc succeeds, the entry then heading the list; otherwise -1 with the list unchanged |
| Net.MatchesNetworkOrder | kernel/net.c:71 | on either byte order an entry matches exactly the frames whose two type bytes spell its Ethertype in network order |
| Net.EveryDeviceIsNamedNet | kernel/net.c:33 | as written, since the %d digits are never stored, every device is named "net" |
| Ethernet.Broadcast | kernel/ethernet.c:12 | the broadcast address is six bytes of 0xff |
| Ethernet.AddrPtonAsWritten | kernel/ethernet.c:14-34 | as written, over klib's strtol that never sets the end pointer, ethernet_addr_pton gives -1 for every string |
| Ethernet.PtonFrom | kernel/ethernet.c:22-32 | what the loop accepts from a field on is one octet per remaining field |
| Ethernet.AddrPton | kernel/ethernet.c:14-34 | corrected: 0 exactly when the string is non-null, n is non-null and the text reads as six ':'-separated base-16 octets, which then fill n[0..6); -1 otherwise; n is untouched past 6 |
| Ethernet.ReadOctet | kernel/ethernet.c:23-28 | one round: strtol at the position, then the range check and the ':' (or, for the last field, NUL) after the digits, each failure making the whole parse fail |
| Ethernet.PtonReadsFormat | kernel/ethernet.c:22-32 | the parser reads a formatted address back from any position |
| Ethernet.PtonOfFormat | kernel/ethernet.c:14-34 | every address written as six hexadecimal octets separated by ':' parses back to itself |
| Ethernet.RxHelper | kernel/ethernet.c:69-91 | the callback is called exactly for a frame of at least the header's 14 bytes addressed to the device or to the broadcast address, with the type field as loaded, the bytes after the header and their count |
| Ethernet.Frame | kernel/ethernet.c:101-107 | the frame is the header and the payload padded to 46 bytes: 14 + max(plen, 46) bytes |
| Ethernet.TxHelper | kernel/ethernet.c:93-113 | -1 and nothing sent for a null payload, one over 1500 bytes or a null destination; otherwise the driver gets destination, source, the type in network order and the padded payload, and plen is returned exactly when the driver reports the whole frame sent |
| Ethernet.TxThenRx | kernel/ethernet.c:69-113 | a frame sent to a device or to everyone is received with its payload intact, and its type field selects exactly the protocols registered for the sender's type, on either byte order |
| Ethernet.NetdevSetup | kernel/ethernet.c:115-121 | an Ethernet device with MTU 1500 that can broadcast, 14-byte header and 6-byte addresses; the rest unchanged |
| Arp.Encode | kernel/arp.c:23-37 | an ARP message for Ethernet and IPv4 is 28 bytes |
| Arp.Decode | kernel/arp.c:23-37 | the fields read from 28 bytes have their sizes |
| Arp.DecodeEncode | kernel/arp.c:23-37 | decoding an encoded message gives it back |
| Arp.RxCheck | kernel/arp.c:220-235 | an accepted packet is at least a message long and is decoded as it stands |
| Arp.SentMessagesAreAccepted | kernel/arp.c:164-212 | every message arp_send_request or arp_send_reply builds passes arp_rx's checks unchanged (see also arp.c:220-235) |
| Arp.Find | kernel/arp.c:79-88 | the first used entry for the protocol address; the table size when there is none |
| Arp.FirstFree | kernel/arp.c:113-122 | the first unused entry, every earlier one used |
| Arp.Patrolled | kernel/arp.c:153-162 | the table keeps its size |
| Arp.PatrolLeavesNoStale | kernel/arp.c:139-162 | after the patrol no entry is older than the timeout, fresh entries are unchanged and stale ones are cleared |
| Arp.Updated | kernel/arp.c:90-111 | the table keeps its size |
| Arp.Inserted | kernel/arp.c:124-137 | the table keeps its size |
| Arp.UpdateRefreshes | kernel/arp.c:90-111 | an update changes nothing when the address is unknown; otherwise its entry gets the hardware address and the time, still found there, and no other entry changes |
| Arp.FindAgain | kernel/arp.c:79-88 | an entry still holding the address with the earlier ones unchanged is found again |
| Arp.InsertIsFound | kernel/arp.c:124-137 | an inserted address is then found at the first free entry with its hardware address |
| Arp.FindFirstOccupant | kernel/arp.c:79-88 | the first entry holding the address is Find |
| Arp.RxTable | kernel/arp.c:240-254 | the table keeps its size |
| Arp.RxLearnsSender | kernel/arp.c:240-254 | when the sender is known, or the message is for us and there is room, the sender's address maps to its hardware address afterwards |
| Arp.QueryThenAnswerResolves | kernel/arp.c:262-301 | an address arp_resolve queried resolves to the hardware address of the answer that arrives within the timeout (see also arp.c:214-260) |
| Arp.FindAgainAfterSweep | kernel/arp.c:242-245 | the patrol does not move a fresh entry |
| Arp.RequestFrame | kernel/arp.c:164-187 | the request goes to the broadcast address as an ARP frame |
| Arp.ReplyFrame | kernel/arp.c:189-212 | the reply goes to the given address as an ARP frame |
| Arp.RequestFields | kernel/arp.c:164-187 | the request asks for the target address from the interface's hardware and protocol addresses with a zero target hardware address |
| Arp.ArpLayer.constructor | kernel/arp.c:49-51 | an empty table and the given time |
| Arp.ArpLayer.Select | kernel/arp.c:79-88 | the entry Find names, none when there is none |
| Arp.ArpLayer.FreeSpace | kernel/arp.c:113-122 | the entry FirstFree names, none when the table is full |
| Arp.ArpLayer.Update | kernel/arp.c:90-111 | 0 exactly when the address is known; the table becomes Updated |
| Arp.ArpLayer.Insert | kernel/arp.c:124-137 | 0 exactly when there is a free entry; the table becomes Inserted |
| Arp.ArpLayer.Patrol | kernel/arp.c:153-162 | the table becomes Patrolled at the stored time |
| Arp.ArpLayer.SendRequest | kernel/arp.c:164-187 | -1 for no target; otherwise the request frame is sent and the device's answer decides 0 or -1 |
| Arp.ArpLayer.SendReply | kernel/arp.c:189-212 | -1 for a missing address; otherwise the reply frame is sent and the device's answer decides 0 or -1 |
| Arp.ArpLayer.Rx | kernel/arp.c:214-260 | a packet failing the checks changes nothing; otherwise the table becomes RxTable and a request for us is answered |
| Arp.ArpLayer.Learn | kernel/arp.c:240-258 | the patrol runs when more than 10 seconds passed, the sender is updated or, for us, inserted, and a request for us gets one reply |
| Arp.ArpLayer.Resolve | kernel/arp.c:262-301 | the result is ResolveOf: found with its address, a query (with a request sent) for an unresolved or new entry, or an error when the table is full |
| Arp.NotFound | kernel/arp.c:79-88 | an address no entry holds is not found |
| Arp.FirstFreeIs | kernel/arp.c:113-122 | an unused entry with all earlier ones used is FirstFree |
| Ip.AddrOf | kernel/ip.c:39-40 | the address whose four network-order bytes are the given ones |
| Ip.AddrOfBytes | kernel/ip.c:39-40 | reading an address's four network-order bytes back gives the address |
| Ip.And | kernel/ip.c:170 | the bitwise AND of two words, no larger than either |
| Ip.AddrPtonAsWritten | kernel/ip.c:51-72 | ip_addr_pton as written over the klib strtol that never reports a digit: every call returns -1 |
| Ip.PtonFrom | kernel/ip.c:57-70 | the dotted-quad reading from field idx on; when it succeeds it holds exactly the remaining fields |
| Ip.AddrPton | kernel/ip.c:51-72 | 0 exactly when the text is four decimal fields 0..255 separated by dots and ended by NUL, with the four bytes stored; -1 otherwise; bytes past the address are untouched |
| Ip.ReadField | kernel/ip.c:58-67 | one field: a failure means the whole parse fails; otherwise the parse is this byte followed by the parse of the rest |
| Ip.PtonOfDotted | kernel/ip.c:51-72 | the dotted text of any four bytes parses back to those bytes |
| Ip.PtonReadsDotted | kernel/ip.c:57-70 | from field k, the dotted text of fields k..3 parses to those bytes |
| Ip.ParseAddr | kernel/ip.c:189-198 | none exactly when the text does not parse; otherwise the address of the parsed bytes |
| Ip.LookupIsBest | kernel/ip.c:141-152 | ip_route_lookup finds nothing exactly when no used route matches; otherwise it finds the matching route with the longest netmask, the first among equals |
| Ip.LookupFromIsBest | kernel/ip.c:144-150 | the scan keeps the best candidate so far up to the end of the table |
| Ip.BestIsUnique | kernel/ip.c:146 | two best routes for the same destination are the same slot |
| Ip.BestIsLookup | kernel/ip.c:140-151 | any best route for the destination is the slot ip_route_lookup returns |
| Ip.FirstUnused | kernel/ip.c:115-116 | the slot ip_route_add takes: unused, with every earlier slot used, or the table size when all are used |
| Ip.AddRoute | kernel/ip.c:112-126 | the table after ip_route_add keeps its size |
| Ip.DeleteRoutes | kernel/ip.c:128-139 | the table after ip_route_del keeps its size |
| Ip.DeleteRemovesOnly | kernel/ip.c:128-139 | after ip_route_del no used route names the interface, routes of other interfaces are unchanged, and no lookup can choose the deleted interface |
| Ip.AddedRouteIsFound | kernel/ip.c:112-152 | after adding a route that matches a destination, the lookup finds a route at least as specific |
| Ip.RoomIffUnused | kernel/ip.c:115-125 | ip_route_add finds a slot exactly when some slot is unused |
| Ip.AddRouteTakesOne | kernel/ip.c:112-126 | adding a route uses up one unused slot when there is one |
| Ip.FirstProtocol | kernel/ip.c:311-316 | the handler of the first registered protocol of the type; none exactly when no protocol has it |
| Ip.NewestProtocolWins | kernel/ip.c:408-420 | a protocol registered last is the one ip_rx dispatches to for its type |
| Ip.Header | kernel/ip.c:344-355 | the header ip_tx_core writes is 20 bytes |
| Ip.Sealed | kernel/ip.c:353-356 | the header with its checksum filled in is 20 bytes |
| Ip.Datagram | kernel/ip.c:339-357 | the packet is the header followed by exactly the payload |
| Ip.HeaderSum | kernel/ip.c:353-356 | the checksum field is zero while the sum is computed and is then stored big-endian |
| Ip.SealedVerifies | kernel/ip.c:353-356 | a sealed header sums to zero under cksum16, so ip_rx's check accepts it |
| Ip.SealedFields | kernel/ip.c:346-356 | the sealed header has version 4 and length 5, TTL 255, the protocol, total length, offset, source and destination |
| Ip.HeaderFields | kernel/ip.c:346-355 | the header's fields read back as written |
| Ip.RxCheck | kernel/ip.c:267-310 | an accepted datagram's header length fits in it |
| Ip.RxRejects | kernel/ip.c:267-310 | a short buffer, another version, a length error, a bad checksum, TTL 0, another destination or a fragment is dropped |
| Ip.RxAccepts | kernel/ip.c:267-310 | a datagram passing every check is accepted with payload length total-hlen taken mod 2^32, its source, destination and protocol |
| Ip.TxThenRx | kernel/ip.c:339-357 | a datagram built by ip_tx_core is accepted by ip_rx's checks at its destination with its payload, source and protocol |
| Ip.RxShortTotalLengthWraps | kernel/ip.c:276-304 | a header whose total length is 0 passes the length check and gives a payload length of 2^32-20, far beyond the buffer |
| Ip.RxCheckIntended | kernel/ip.c:267-310 | with a total length below the header length refused, an accepted payload always lies within the buffer; otherwise the same as ip_rx |
| Ip.PlanOf | kernel/ip.c:382-395 | no next hop exactly when an interface is given and the destination is broadcast; no route exactly when otherwise no route matches |
| Ip.ChunksBounded | kernel/ip.c:397-398 | the fragments start at the offset sent so far, are non-empty, no larger than the room and end within the length |
| Ip.ChunksAdjacent | kernel/ip.c:397-404 | each fragment starts where the previous one ended, every fragment but the last fills the room, and the last ends at the length |
| Ip.ChunksTail | kernel/ip.c:397-398 | one round sends MIN(len-done, room) bytes and the rest follows |
| Ip.FragmentFieldFlags | kernel/ip.c:399-400 | a fragment is marked more-fragments exactly when data follows it, and carries the offset in 8-byte units |
| Ip.Packets | kernel/ip.c:397-404 | one packet per fragment |
| Ip.PacketsAt | kernel/ip.c:401 | packet k is built from fragment k |
| Ip.RoundPacket | kernel/ip.c:398-401 | the packet of one round carries that slice of the buffer and that offset field |
| Ip.RoundRest | kernel/ip.c:397-404 | a refused round is the last packet sent and the send fails; otherwise the rest follows |
| Ip.SentChunksPrefix | kernel/ip.c:397-404 | the fragments sent are a prefix of the fragments, all of them when no round fails |
| Ip.SentChunksStop | kernel/ip.c:401-403 | the loop stops at the first refused round, and fails exactly then |
| Ip.SentRebuilds | kernel/ip.c:397-405 | when no round fails, the payloads of the packets sent put back together are the buffer |
| Ip.Slen | kernel/ip.c:398 | mtu - 20 taken mod 2^32, as the unsigned subtraction gives it |
| Ip.Room | kernel/ip.c:340 | the per-fragment payload, positive and within the 4096-byte packet (see also ip.c:398) |
| Ip.RoomSplitsAsSlen | kernel/ip.c:398 | when no trap happens, the model's capped room splits the data exactly as slen does |
| Ip.WrongMtus | kernel/ip.c:340 | an MTU of 20 gives fragments of 0 bytes, which loop forever on a link that accepts every datagram (TxOutcome: the first refused round ends it with -1); an MTU below 20 wraps and overruns the packet buffer exactly when the data exceeds 4076 bytes; an MTU above 4096 overruns with such data; other MTUs send mtu-20 bytes a packet (see also ip.c:397-398) |
| Ip.IpLayer.constructor | kernel/ip.c:44-49 | an empty route table, no protocols, the identifier counter at 128 and nothing sent |
| Ip.IpLayer.RouteAdd | kernel/ip.c:112-126 | 0 and the route stored in the first unused slot, or -1 with the table unchanged when it is full |
| Ip.IpLayer.RouteDel | kernel/ip.c:128-139 | every used route of the interface is marked unused; returns 0 |
| Ip.IpLayer.RouteLookup | kernel/ip.c:141-152 | the best matching route as LookupIsBest describes |
| Ip.IpLayer.NetifAlloc | kernel/ip.c:158-183 | a failed page allocation gives null and no change; otherwise the interface's network and broadcast are its address AND mask and network OR NOT mask, its route and the default route are added, and null comes back exactly when the table had too few free slots |
| Ip.IpLayer.NetifReconfigure | kernel/ip.c:211-229 | the interface's old routes are deleted, its addresses replaced, its routes added again; 0 exactly when they fit |
| Ip.IpLayer.NetifRegister | kernel/ip.c:185-209 | null with no change when an address does not parse or the allocation fails; otherwise the interface is attached exactly when its routes fit and the device has no IPv4 interface yet |
| Ip.IpLayer.NetifAttach | kernel/ip.c:200-208 | the allocated interface goes to the head of the device's list exactly when its routes fit and the device has no IPv4 interface |
| Ip.IpLayer.NetifByAddr | kernel/ip.c:231-243 | the first interface, device by device, whose unicast address is the given one; null exactly when none has it |
| Ip.ByPeer | kernel/ip.c:245-253 | on a route table: null when no route matches the peer; whenever a best route exists, its interface, and a non-null answer is always a best route's interface |
| Ip.IpLayer.NetifByPeer | kernel/ip.c:245-253 | the interface of the best route to the peer, or null when none matches; it is Ip.ByPeer of the table |
| Ip.IpLayer.Choose | kernel/ip.c:382-395 | the route plan: broadcast through the given interface, no route, or the route's interface and next hop |
| Ip.IpLayer.Tx | kernel/ip.c:376-406 | -1 with nothing sent when no route; otherwise one identifier is used and the data goes out as Packets of the fragments up to the first refused one, returning len or -1; with an MTU of 20 the header-only fragments up to and including the first refused one go out and the result is -1, or a hang when no round is refused; the other bad MTUs are a fault |
| Ip.IpLayer.TxRounds | kernel/ip.c:397-404 | for fragments of 0 bytes, header-only packets up to the first refused round and failure; otherwise the Packets of SentChunks, failing as FailsFrom says |
| Ip.IpLayer.TxEmpty | kernel/ip.c:397-404 | with a fragment size of 0, n + 1 header-only packets (MF set, offset 0) where n is the first refused round |
| Ip.IpLayer.TxFragments | kernel/ip.c:397-404 | the packets sent are those of SentChunks; failure exactly when a round is refused |
| Ip.IpLayer.TxRound | kernel/ip.c:398-403 | one fragment of MIN(len-done, room) bytes is sent; -1 exactly when the device refuses it |
| Ip.IpLayer.TxCore | kernel/ip.c:339-363 | one packet with the payload, the source (the interface's address by default), destination, identifier and offset; the device's answer is returned |
| Ip.IpLayer.GenerateId | kernel/ip.c:365-374 | returns the counter and increments it modulo 2^16 |
| Ip.IpLayer.AddProtocol | kernel/ip.c:408-420 | -1 when the page allocation fails; otherwise the protocol is pushed at the head of the list |
| Ip.IpLayer.Rx | kernel/ip.c:259-317 | the delivery to the first protocol of the datagram's type on the device's IPv4 interface, or none, as RxResult defines |
| Icmp.Header | kernel/icmp.c:84-87 | the header is 8 bytes: type, code, checksum, value bytes |
| Icmp.Message | kernel/icmp.c:83-90 | the message is the header and the data: 8 + len bytes |
| Icmp.MessageFields | kernel/icmp.c:83-90 | a receiver reads back the type, code, value bytes and data icmp_tx put in |
| Icmp.MessageVerifies | kernel/icmp.c:86-90 | every message icmp_tx seals sums to a checksum of 0 (section 2 of RFC 1071) |
| Icmp.RxReply | kernel/icmp.c:63-76 | icmp_rx answers only a message of at least 8 bytes whose type is Echo, with plen - 8 bytes of data |
| Icmp.EchoIsEchoed | kernel/icmp.c:63-92 | an Echo icmp_tx built is answered with an Echo Reply to its sender carrying the same code, identifier, sequence number and data, and the reply passes the checksum test |
| Icmp.Tx | kernel/icmp.c:78-92 | more than ICMP_BUFSIZ - 8 data bytes overrun buf, a fault before anything is sent; otherwise the sealed message goes through ip_tx with protocol ICMP, whose contract gives the result, the datagrams and the trap |
| Icmp.Rx | kernel/icmp.c:63-76 | nothing is sent for a short message or one that is not an Echo; an Echo is answered through icmp_tx on the interface it arrived on, a reply past ICMP_BUFSIZ faulting |
| Udp.Header | kernel/udp.c:15-50 | the UDP header is 8 bytes |
| Udp.Segment | kernel/udp.c:46-59 | the datagram is the header followed by the payload |
| Udp.SegmentVerifies | kernel/udp.c:52-59 | every datagram udp_tx builds sums to zero with its pseudo-header, so udp_rx's checksum accepts it |
| Udp.RxCheck | kernel/udp.c:70-96 | an accepted datagram is at least a header long, its data is len - 8 bytes, and it is stamped with the source address |
| Udp.TxThenRx | kernel/udp.c:40-61 | a datagram udp_tx sends passes udp_rx's checks at the peer with its ports, source and payload intact (see also udp.c:63-97) |
| Udp.FirstMatch | kernel/udp.c:85-86 | the first used block bound to the port on any interface or on this one |
| Udp.Delivered | kernel/udp.c:85-102 | the table keeps its size |
| Udp.RxTable | kernel/udp.c:63-105 | the table keeps its size |
| Udp.DeliveryQueuesOnce | kernel/udp.c:85-102 | with no match or no page nothing changes; otherwise the datagram is appended to the first matching block's queue only, behind what it held |
| Udp.FirstMatchIs | kernel/udp.c:85-86 | a matching block with no earlier match is FirstMatch |
| Udp.SentDatagramIsQueued | kernel/udp.c:40-61 | a datagram sent to a bound port lands at the end of that block's queue with its source and data (see also udp.c:63-102) |
| Udp.FirstUnused | kernel/udp.c:107-120 | the first unused block, every earlier one in use |
| Udp.Opened | kernel/udp.c:107-120 | the table keeps its size |
| Udp.ReopenAfterClose | kernel/udp.c:107-145 | a closed block before which all are used is the one the next open takes, fresh |
| Udp.FirstUnusedIs | kernel/udp.c:110-116 | an unused block with all earlier ones used is FirstUnused |
| Udp.Bound | kernel/udp.c:178-203 | the table keeps its size |
| Udp.BoundIsOnlyMatch | kernel/udp.c:172-179 | once bound without conflict, the block is the only match for its port on that interface (see also udp.c:85-86) |
| Udp.EphemeralIsSmallest | kernel/udp.c:278-288 | the port sendto picks is the smallest free one from 49152, none when none is free |
| Udp.EphemeralReachesSender | kernel/udp.c:277-288 | a block given a free port is the one replies to that port reach (see also udp.c:85-86) |
| Udp.Tx | kernel/udp.c:40-61 | data beyond the 65536-byte packet is a fault with nothing sent; otherwise the datagram from the interface's address goes out through ip_tx as Ip.IpLayer.Tx says, with its result |
| Udp.UdpLayer.constructor | kernel/udp.c:37 | every block free |
| Udp.UdpLayer.Match | kernel/udp.c:85-86 | the scan's result is FirstMatch |
| Udp.UdpLayer.Rx | kernel/udp.c:63-105 | a fault exactly when the queued copy would overrun its page (RxOverruns), with the table unchanged; otherwise the table becomes RxTable: the datagram is queued at the first matching block when its checks pass and a page is found |
| Udp.OverrunIffLonger | kernel/udp.c:92-96 | the page overruns exactly for an accepted datagram longer than 4096 bytes that a block takes and kalloc finds a page for |
| Udp.UdpLayer.Open | kernel/udp.c:107-120 | the first unused block is taken and its index returned; -1 when all are used |
| Udp.UdpLayer.Close | kernel/udp.c:122-145 | 0 and the block freed, with its queue, for a used socket; -1 with no change otherwise |
| Udp.UdpLayer.BindIface | kernel/udp.c:184-206 | 0 exactly when the socket is used and no other block holds the port on an overlapping interface, with the binding stored; -1 with no change otherwise |
| Udp.UdpLayer.Bind | kernel/udp.c:147-182 | -1 for a bad socket or family, an unused block or an address no interface has; the interface found has the address; 0 exactly when the binding does not conflict, with it stored |
| Udp.UdpLayer.RecvFrom | kernel/udp.c:208-247 | -1 for a bad socket, short address length or unused block; blocked on an empty queue; otherwise the first datagram is popped and MIN(size, its length) bytes copied out, with its sender |
| Udp.UdpLayer.Holder | kernel/udp.c:279-283 | the scan finds a holder exactly when the port is not free on the interface |
| Udp.UdpLayer.PickPort | kernel/udp.c:278-288 | the port search's result is Ephemeral from 49152 |
| Udp.UdpLayer.Prepare | kernel/udp.c:256-295 | none for a bad socket, address or length, an unused block, no interface to the peer or no free port; otherwise the interface (the bound one or the route's) and the port, stored if picked |
| Udp.UdpLayer.SendTo | kernel/udp.c:249-297 | -1 with nothing sent when Prepare fails; otherwise what udp_tx does with the data from the block's port through the interface found |
| Tcp.Header | kernel/tcp.c:40-50 | the header tcp_tx writes is 20 bytes (see also tcp.c:168-181) |
| Tcp.Bytes | kernel/tcp.c:158-188 | a segment is the header followed by the payload |
| Tcp.BytesVerify | kernel/tcp.c:176-186 | every segment tcp_tx builds sums to zero with its pseudo-header, so tcp_rx's checksum accepts it |
| Tcp.Parse | kernel/tcp.c:252-253 | the ports and flags are read from their offsets (see also tcp.c:442) |
| Tcp.ParseStandard | kernel/tcp.c:252-253 | with a 20-byte header, every field is read at its offset and the payload is the rest of the segment |
| Tcp.RxCheck | kernel/tcp.c:439-452 | an accepted segment is at least a header long and is parsed as it stands |
| Tcp.HeaderFields | kernel/tcp.c:168-181 | the header's ports, sequence and acknowledgment numbers, offset, flags and window read back as written |
| Tcp.TxThenRx | kernel/tcp.c:158-188 | a segment tcp_tx sends passes tcp_rx's checks at the peer and parses back to the fields it was built from (see also tcp.c:439-452) |
| Tcp.BytesParse | kernel/tcp.c:158-188 | the bytes of a segment parse back to every field and the payload (see also tcp.c:252-253) |
| Tcp.Buffered | kernel/tcp.c:689-697 | the unread bytes are 4096 - rcv.wnd long |
| Tcp.Emit | kernel/tcp.c:158-188 | the segment tcp_tx builds goes from the block's interface and port to its peer, with the given numbers, flags, payload and the block's rcv.wnd |
| Tcp.Queued | kernel/tcp.c:105-132 | the segment joins the retransmission queue when the two pages are allocated; nothing else changes |
| Tcp.Quiet | kernel/tcp.c:256-257 | a reaction that sends nothing and leaves the block as it is |
| Tcp.Reply | kernel/tcp.c:158-188 | one segment is sent and queued as Queued says |
| Tcp.Then | kernel/tcp.c:248-429 | two steps in a row: the segments of both, the block of the second |
| Tcp.Stored | kernel/tcp.c:395 | the window keeps its size |
| Tcp.StoredAppends | kernel/tcp.c:395 | data that fits is written right behind the bytes already held |
| Tcp.ResetIsIgnored | kernel/tcp.c:256-257 | a segment with RST is never answered and changes nothing, in every state (see also tcp.c:278-279, 310-315 and 343-346) |
| Tcp.ResetAckCovers | kernel/tcp.c:262-273 | the acknowledgment of a reset answer covers SYN, the payload and FIN |
| Tcp.ClosedAnswersReset | kernel/tcp.c:255-276 | CLOSED answers every non-RST segment with one RST: from the ACK number when ACK is set, otherwise acknowledging everything the segment carried |
| Tcp.ListenAnswers | kernel/tcp.c:277-298 | LISTEN answers an ACK with RST, answers a SYN with SYN+ACK from the clock and moves to SYN-RECEIVED, and ignores the rest |
| Tcp.UnacceptableIsDropped | kernel/tcp.c:339-350 | in a synchronised state a segment out of order, with RST or SYN, or without ACK is dropped |
| Tcp.PassiveOpen | kernel/tcp.c:277-298 | LISTEN, then a SYN, then the ACK of the SYN+ACK, gives ESTABLISHED, pushed onto the backlog, with the numbers agreed (see also tcp.c:352-357) |
| Tcp.ActiveOpen | kernel/tcp.c:299-330 | SYN-SENT receiving a SYN+ACK of its SYN moves to ESTABLISHED and sends one ACK |
| Tcp.InOrderDataIsAppended | kernel/tcp.c:390-402 | in-order data that fits the window is added to the unread bytes, rcv.nxt and rcv.wnd move past it, and it is acknowledged |
| Tcp.WindowOverrunAsWritten | kernel/tcp.c:390-402 | as written, one byte arriving at a full window wraps rcv.wnd to 65535 and leaves the window unsound |
| Tcp.FinShape | kernel/tcp.c:407-427 | the FIN test leaves the window alone and moves the state as FinState says |
| Tcp.DataShape | kernel/tcp.c:390-427 | the data test moves the state at most by the FIN test |
| Tcp.StoreExtends | kernel/tcp.c:395-397 | storing data that fits keeps the unread bytes and adds to them |
| Tcp.DataTakenExtends | kernel/tcp.c:390-402 | corrected, data taken into the window only adds to the unread bytes |
| Tcp.DataTakenWindow | kernel/tcp.c:395-397 | corrected, taken data is written at 4096 - rcv.wnd and rcv.wnd shrinks by its length |
| Tcp.DataExtends | kernel/tcp.c:390-427 | corrected, the data and FIN tests keep the window sound and only add to the unread bytes |
| Tcp.AckShape | kernel/tcp.c:366-384 | the ACK test moves FIN-WAIT-1 on to FIN-WAIT-2 at most, and otherwise only as the data test does |
| Tcp.SameThenExtends | kernel/tcp.c:366-427 | a step leaving the window alone followed by a step that extends it extends it |
| Tcp.AckExtends | kernel/tcp.c:366-427 | corrected, the ACK test keeps the window sound and only adds to it |
| Tcp.SynRcvdAck | kernel/tcp.c:352-360 | SYN-RECEIVED with an ACK within snd.una..snd.nxt is established and pushed; with another ACK it answers RST |
| Tcp.SynRcvdExtends | kernel/tcp.c:352-427 | corrected, SYN-RECEIVED's handling only adds to the window |
| Tcp.SyncExtends | kernel/tcp.c:339-427 | corrected, every synchronised state only adds to the window |
| Tcp.EventExtends | kernel/tcp.c:248-429 | corrected, no segment ever takes unread bytes away or makes the window unsound |
| Tcp.SynRcvdNotClosingAsWritten | kernel/tcp.c:352-427 | as written, SYN-RECEIVED never moves to CLOSING |
| Tcp.ClosingUnreachableAsWritten | kernel/tcp.c:248-429 | as written, no segment moves a block into CLOSING, so the CLOSING branch of lines 377-382 is dead |
| Tcp.FinInFinWait1 | kernel/tcp.c:407-418 | a FIN in FIN-WAIT-1 before its own FIN is acknowledged is acknowledged and leads to FIN-WAIT-2 as written, to CLOSING corrected |
| Tcp.SimultaneousClose | kernel/tcp.c:366-382 | corrected, FIN-WAIT-1 receiving a FIN and then the ACK of its own FIN goes through CLOSING to TIME-WAIT (see also tcp.c:407-418) |
| Tcp.ClosingAcked | kernel/tcp.c:377-382 | CLOSING whose FIN is acknowledged moves to TIME-WAIT |
| Tcp.DrainedKeepsRest | kernel/tcp.c:696-699 | recv takes n bytes from the front of the unread bytes and keeps the rest in order |
| Tcp.DataKeeps | kernel/tcp.c:390-427 | the data test keeps the block's identity, listener, backlog and window size |
| Tcp.AckKeeps | kernel/tcp.c:366-384 | the same for the ACK test |
| Tcp.ClosedKeeps | kernel/tcp.c:255-276 | the same in CLOSED |
| Tcp.ListenKeeps | kernel/tcp.c:277-298 | the same in LISTEN |
| Tcp.SynSentKeeps | kernel/tcp.c:299-335 | the same in SYN-SENT |
| Tcp.SyncKeeps | kernel/tcp.c:339-427 | the same in the synchronised states |
| Tcp.EventKeeps | kernel/tcp.c:248-429 | no event changes the block's identity, listener, backlog or window size |
| Tcp.CloseStep | kernel/tcp.c:517-533 | close's FIN and state change keep the block's identity and push nothing |
| Tcp.FirstUnused | kernel/tcp.c:494-499 | the first unused block, every earlier one in use |
| Tcp.FirstUnusedIs | kernel/tcp.c:494-499 | any slot that is unused with all earlier ones used is FirstUnused |
| Tcp.FirstReached | kernel/tcp.c:454-463 | the first used block bound to the interface and port whose peer is the segment's source (corrected: never a listening block) |
| Tcp.FirstReachedIs | kernel/tcp.c:454-463 | the block the scan breaks at is FirstReached |
| Tcp.FirstListener | kernel/tcp.c:464-466 | the first listening block on the interface and port |
| Tcp.FirstListenerIs | kernel/tcp.c:464-466 | the listener the scan keeps is FirstListener |
| Tcp.Demux | kernel/tcp.c:454-475 | the segment goes to the block it reaches, or spawns a child in an unused block of a listener |
| Tcp.Arrived | kernel/tcp.c:475-484 | the table keeps its size when a child is set up |
| Tcp.Pushed | kernel/tcp.c:355 | the table keeps its size when a block joins its listener's backlog |
| Tcp.SynCreatesChild | kernel/tcp.c:469-485 | with no block reached, a child spawns exactly for a bare SYN with an unused block and a listener; it takes the first unused block, the listener's port, the peer, and moves to SYN-RECEIVED |
| Tcp.SynRcvdShape | kernel/tcp.c:248-429 | only a SYN-RECEIVED block asks to be pushed, and a block is SYN-RECEIVED after an event only if it was listening or SYN-RECEIVED before (see also tcp.c:352-357) |
| Tcp.ZeroPeerHandshakeAsWritten | kernel/tcp.c:454-463 | as written, a SYN and then an ACK from 0.0.0.0 port 0 reach a listener itself, whose zeroed peer they match, and the handshake ends asking for a push with no listener (see also tcp.c:352-357) |
| Tcp.FixedPushHasParent | kernel/tcp.c:454-488 | corrected, with a listening block never a connection, every SYN-RECEIVED block keeps a listener through a segment and every push has a listener (see also tcp.c:352-357) |
| Tcp.Connecting | kernel/tcp.c:575-579 | the block the SYN is sent for keeps everything but its port, peer, window, iss and (corrected) interface |
| Tcp.UnboundSynAsWritten | kernel/tcp.c:539-587 | as written, the SYN of a block with no interface goes out with none, so its source address is read through a null pointer (see also tcp.c:176) |
| Tcp.RoutedSyn | kernel/tcp.c:539-587 | corrected, a block with no interface connects exactly through the interface of the best route to the peer whenever that route has one, only through a best route's interface, and not at all when no route matches (see also udp.c:269-276) |
| Tcp.TotalUpdate | kernel/tcp.c:134-156 | the count of backlog entries after one block is replaced |
| Tcp.TotalShrinks | kernel/tcp.c:134-156 | clearing blocks never adds backlog entries |
| Tcp.ClearStart | kernel/tcp.c:138-146 | clearing begins by dropping the retransmission queue |
| Tcp.ClearStep | kernel/tcp.c:147-152 | each backlog entry popped is cleared in turn |
| Tcp.ClearFinish | kernel/tcp.c:153-155 | with the backlog empty the block is zeroed |
| Tcp.EphemeralIsSmallest | kernel/tcp.c:559-569 | the port connect picks is the smallest free one from the start, none when no port is free |
| Tcp.SearchStart | kernel/tcp.c:558-559 | the search starts at 49152 plus the clock/100 mod 1024 |
| Tcp.BoundListenerIsFound | kernel/tcp.c:589-632 | a bound, listening block on a port no other block uses is the listener tcp_rx finds (see also tcp.c:464-466) |
| Tcp.TcpLayer.constructor | kernel/tcp.c:103 | every block zeroed, nothing sent |
| Tcp.TcpLayer.Clear | kernel/tcp.c:134-156 | tcp_cb_clear: the block, and every block on its backlog in turn, cleared as ClearedFrom says |
| Tcp.TcpLayer.PopClear | kernel/tcp.c:147-152 | one backlog entry popped and cleared; the backlog count drops |
| Tcp.TcpLayer.Scan | kernel/tcp.c:454-475 | the scan's result is Demux |
| Tcp.TcpLayer.Rx | kernel/tcp.c:431-488 | a segment for another address or failing its checks changes nothing; otherwise it is demultiplexed and the event runs on its block, with its segments sent and the block pushed or cleared; `fault` exactly when the push has no listener |
| Tcp.TcpLayer.Incoming | kernel/tcp.c:248-429 | the block becomes the event's block, its segments are sent, and it is pushed onto the backlog or cleared as the event says; `fault` exactly when the push has no listener (tcp.c:355) |
| Tcp.TcpLayer.Open | kernel/tcp.c:490-503 | the first unused block is marked used and its index returned; -1 with no change when all are used |
| Tcp.TcpLayer.Close | kernel/tcp.c:505-537 | -1 for a bad or unused socket; otherwise the FIN of SYN-RECEIVED, ESTABLISHED or CLOSE-WAIT is sent and the block cleared, returning 0 |
| Tcp.TcpLayer.InUse | kernel/tcp.c:560-564 | whether some used block has the port |
| Tcp.TcpLayer.PickPort | kernel/tcp.c:559-569 | the port search's result is Ephemeral |
| Tcp.TcpLayer.Connect | kernel/tcp.c:539-587 | -1 for a bad socket, family or state, or no free port; otherwise the peer is set, a SYN sent from the clock, SYN-SENT entered, and the call blocks; as written an unbound block's SYN has no interface and the source `stray`, corrected it leaves by the route's interface from that interface's address, and -1 without a route |
| Tcp.TcpLayer.AwaitConnected | kernel/tcp.c:582-586 | the call blocks exactly while the block is in SYN-SENT and returns 0 once it leaves, whatever state it reached |
| Tcp.TcpLayer.Bind | kernel/tcp.c:589-615 | 0 exactly when the socket is valid, AF_INET, the port unclaimed and the block used and CLOSED, with the port stored; -1 with no change otherwise |
| Tcp.TcpLayer.Listen | kernel/tcp.c:617-632 | 0 exactly when the block is used, CLOSED and bound, moving it to LISTEN; -1 with no change otherwise |
| Tcp.TcpLayer.Accept | kernel/tcp.c:634-674 | -1 for a bad socket or address length, an unused or non-listening block; otherwise blocks on an empty backlog, or pops the first child and returns it with its peer's address |
| Tcp.TcpLayer.Recv | kernel/tcp.c:676-702 | -1 for a bad or unused socket; a window beyond 4096 is an overrun; with nothing unread, 0 when the state cannot receive and blocked otherwise; else MIN(size, unread) bytes copied out and drained from the front |
| Tcp.TcpLayer.Send | kernel/tcp.c:704-724 | -1 with no change for a bad socket or a state that cannot send; a segment larger than the buffer is an overrun; otherwise one ACK+PSH segment with the data is sent and snd.nxt moves by len |
| Fs1Layout.IBlock | include/fs/fs1.h:57 | an inode's block lies after the boot block and the superblock |
| Fs1Layout.BBlock | include/fs/fs1.h:63 | b/BPB + ninodes/IPB + 3: the bitmap block follows the last inode block |
| Fs1Layout.InodesBeforeBitmap | include/fs/fs1.h:57-63 | every inode block comes before every bitmap block |
| Fs1Layout.Int16Bits | include/fs/fs1.h:45-48 | the 16-bit pattern of a signed field decodes back to it |
| Fs1Layout.Int16Of | include/fs/fs1.h:45-48 | the signed reading of 16 bits agrees with them modulo 2^16 |
| Fs1Layout.Le16 | include/fs/fs1.h:69 | the two little-endian bytes of a 16-bit field add up to it |
| Fs1Layout.Le16RoundTrip | include/fs/fs1.h:69 | a 16-bit field written little-endian reads back |
| Fs1Layout.Le32 | include/fs/fs1.h:49-50 | the four little-endian bytes of a 32-bit field add up to it |
| Fs1Layout.Le32RoundTrip | include/fs/fs1.h:49-50 | a 32-bit field written little-endian reads back |
| Fs1Layout.Splice | kernel/fs/fs1.c:404 | the bytes at off become t and every other byte is unchanged |
| Fs1Layout.SetBit | kernel/fs/fs1.c:63-65 | exactly bit k is added |
| Fs1Layout.ClearBit | kernel/fs/fs1.c:86-89 | exactly bit k is removed |
| Fs1Layout.AddBit | kernel/fs/fs1.c:65 | OR with a clear bit is addition of its power of two |
| Fs1Layout.SubBit | kernel/fs/fs1.c:89 | AND NOT of a set bit is subtraction of its power of two |
| Fs1Layout.AddBitBound | kernel/fs/fs1.c:65 | setting a bit keeps a byte a byte |
| Fs1Layout.ClearSetBit | kernel/fs/fs1.c:65-89 | setting a clear bit and clearing it again gives the byte back |
| Fs1Layout.EncodeSb | include/fs/fs1.h:14-19 | the superblock is four 32-bit fields |
| Fs1Layout.SbRoundTrip | kernel/fs/fs1.c:32-38 | fs1_readsb reads back the superblock that was written, whatever follows it |
| Fs1Layout.EncodeAddrs | include/fs/fs1.h:50 | each block address takes four bytes |
| Fs1Layout.EncodeAddrsAt | include/fs/fs1.h:50 | address j sits at bytes 4j..4j+3 |
| Fs1Layout.DecodeAddrs | include/fs/fs1.h:50 | address j is read from bytes 4j..4j+3 |
| Fs1Layout.EncodeDinode | include/fs/fs1.h:44-51 | an on-disk inode is 128 bytes |
| Fs1Layout.DecodeDinode | include/fs/fs1.h:44-51 | the inode read from any 128 bytes is well shaped |
| Fs1Layout.DinodeRoundTrip | include/fs/fs1.h:44-51 | an on-disk inode written and read back is unchanged |
| Fs1Layout.NameBytes | include/fs/fs1.h:70 | one byte per character of the name |
| Fs1Layout.EncodeDirent | include/fs/fs1.h:68-71 | a directory entry is 16 bytes |
| Fs1Layout.DecodeDirent | include/fs/fs1.h:68-71 | the entry read from 16 bytes has a 14-character name |
| Fs1Layout.DirentRoundTrip | include/fs/fs1.h:68-71 | an entry whose characters are bytes reads back unchanged |
| Fs1Disk.Block | kernel/fs/fs1.c:44 | a block read from the disk is always 512 bytes |
| Fs1Disk.Put | kernel/fs/fs1.c:46 | writing a block changes that block only |
| Fs1Disk.BitByte | kernel/fs/fs1.c:64-85 | the byte of the bitmap block holding block b's bit |
| Fs1Disk.BitIndex | kernel/fs/fs1.c:63-86 | the bit within that byte |
| Fs1Disk.OneBitPerBlock | kernel/fs/fs1.c:61-87 | two blocks never share a bitmap bit |
| Fs1Disk.MarkedInUse | kernel/fs/fs1.c:65 | marking block b in use changes b's bit only |
| Fs1Disk.ClearedInUse | kernel/fs/fs1.c:89 | clearing block b's bit changes b's bit only |
| Fs1Disk.BallocFromLowest | kernel/fs/fs1.c:60-74 | the scan from b fails exactly when every block from b to the size is in use; otherwise it takes the lowest free one |
| Fs1Disk.BallocTakesLowestFree | kernel/fs/fs1.c:53-75 | fs1_balloc panics exactly when every block is in use; otherwise it takes the lowest free block, marks it and zeroes it |
| Fs1Disk.BallocTakesFirst | kernel/fs/fs1.c:53-75 | when block x is free and all below it are in use, fs1_balloc takes x |
| Fs1Disk.BallocFull | kernel/fs/fs1.c:74 | with every block in use fs1_balloc panics |
| Fs1Disk.BallocKeepsOtherMarks | kernel/fs/fs1.c:65-68 | allocating changes no other block's bit |
| Fs1Disk.BitmapBlockBound | kernel/fs/fs1.c:61 | a block's bitmap block is no later than the last one |
| Fs1Disk.AllocatedKeepsMark | kernel/fs/fs1.c:65-68 | zeroing the allocated block does not undo any mark |
| Fs1Disk.BallocSane | kernel/fs/fs1.c:53-75 | on a well-formed disk the block taken lies past the bitmap, the superblock is untouched, and the disk stays well formed |
| Fs1Disk.BfreeFreesOne | kernel/fs/fs1.c:78-92 | fs1_bfree panics exactly when the block is already free; otherwise it clears that block's bit only |
| Fs1Disk.ClearMarked | kernel/fs/fs1.c:65-89 | marking a free block and freeing it again gives the disk back |
| Fs1Disk.AllocatedThenCleared | kernel/fs/fs1.c:53-92 | allocating and then freeing a block leaves it zeroed and every other block as before |
| Fs1Disk.BallocThenBfree | kernel/fs/fs1.c:53-92 | fs1_bfree of the block fs1_balloc gave succeeds and undoes the allocation except for the zeroing |
| Fs1Disk.DinodeOffset | include/fs/fs1.h:54-57 | an inode lies wholly inside its block |
| Fs1Disk.DinodeAt | include/fs/fs1.h:57 | the inode read from its block has 29 addresses |
| Fs1Disk.DinodeReadBack | kernel/fs/fs1.c:195-209 | an inode written by fs1_iupdate reads back unchanged |
| Fs1Disk.DinodeOthers | kernel/fs/fs1.c:195-209 | writing one inode leaves every other inode alone |
| Fs1Disk.PutDinodeKeepsBlocks | kernel/fs/fs1.c:195-209 | writing an inode leaves every other block alone |
| Fs1Disk.Kinds | kernel/fs/fs1.c:176-179 | the type of each inode on disk |
| Fs1Disk.FirstZero | kernel/fs/fs1.c:176-179 | a free inode found lies in the range |
| Fs1Disk.FirstZeroLowest | kernel/fs/fs1.c:176-179 | it is the lowest inode with type 0; none found means none is free |
| Fs1Disk.FreeInodeFrom | kernel/fs/fs1.c:171-192 | the inode fs1_ialloc chooses lies between the start and ninodes |
| Fs1Disk.FreeInodeLowest | kernel/fs/fs1.c:171-192 | fs1_ialloc takes the lowest free inode from 1 on; none means every one is in use |
| Fs1Disk.FreshDinode | kernel/fs/fs1.c:181-183 | the new inode, zeroed with its type set |
| Fs1Disk.SetEntry | kernel/fs/fs1.c:318-321 | the indirect block stays 512 bytes |
| Fs1Disk.SetEntryReadBack | kernel/fs/fs1.c:318-321 | entry j of the indirect block reads back the value set and every other entry is unchanged |
| Fs1Disk.Entries | kernel/fs/fs1.c:350-353 | the 128 entries of an indirect block |
| Fs1Disk.NonzeroMembers | kernel/fs/fs1.c:339-354 | the blocks itrunc frees are the nonzero addresses |
| Fs1Disk.FreeAllMarks | kernel/fs/fs1.c:339-354 | freeing a list of blocks clears exactly their bits |
| Fs1Disk.DistinctCons | kernel/fs/fs1.c:339-354 | a list is duplicate-free exactly when its head is not in its tail and the tail is duplicate-free |
| Fs1Disk.AllInUseCons | kernel/fs/fs1.c:339-354 | a list is all in use exactly when its head and tail are |
| Fs1Disk.AllInUseAfterBfree | kernel/fs/fs1.c:78-92 | after freeing b, a list is all in use exactly when it avoids b and was all in use |
| Fs1Disk.FreeAllSucceeds | kernel/fs/fs1.c:339-354 | freeing a list never panics exactly when its blocks are distinct and all in use |
| Fs1Disk.FreeAllConcat | kernel/fs/fs1.c:339-354 | freeing two lists is freeing the first and then the second |
| Fs1Disk.FreeAllKeeps | kernel/fs/fs1.c:339-354 | freeing blocks leaves alone a block that is none of their bitmap blocks |
| Fs1.EmptyInode | kernel/fs/fs1.c:235-239 | a recycled cache slot has the full address array |
| Fs1.ReadinodeAfterIupdate | kernel/fs/fs1.c:195-209 | fs1_readinode after fs1_iupdate gives the in-memory inode back (see also fs1.c:477-492) |
| Fs1.CachedFrom | kernel/fs/fs1.c:221-226 | the slot found is the first live one holding (dev, inum); none found means no slot from k holds it |
| Fs1.EmptyFrom | kernel/fs/fs1.c:227-228 | the slot found is the first with no references; none found means every slot from k is referenced |
| Fs1.Iget | kernel/fs/fs1.c:214-243 | a cached result names a slot of an equally long cache holding inum |
| Fs1.IgetFindsOrRecycles | kernel/fs/fs1.c:214-243 | fs1_iget panics exactly when the inode is not cached and no slot is free; a cached inode gains one reference, otherwise the first free slot is reset to (dev, inum) with one reference, and no other slot changes |
| Fs1.IgetKeepsUnique | kernel/fs/fs1.c:214-243 | no two live slots ever hold the same inode after fs1_iget |
| Fs1.IgetTwice | kernel/fs/fs1.c:221-226 | a second fs1_iget of the same inode finds the same slot and adds one reference |
| Fs1.Indirect | kernel/fs/fs1.c:313-315 | loading the indirect block changes at most its address slot |
| Fs1.Bmap | kernel/fs/fs1.c:301-327 | the address array keeps its size |
| Fs1.MapEntry | kernel/fs/fs1.c:316-322 | allocating an indirect entry leaves the inode's addresses alone |
| Fs1.BmapMaps | kernel/fs/fs1.c:301-327 | after fs1_bmap the block number reads back, through the new addresses and disk, as the address returned |
| Fs1.EntryMaps | kernel/fs/fs1.c:316-322 | an entry allocated in the indirect block reads back as the address returned |
| Fs1.BmapKeepsMapped | kernel/fs/fs1.c:305-323 | a block that already has an address is returned as it is, nothing allocated |
| Fs1.LocateIsBmap | kernel/fs/fs1.c:301-327 | the two-level lookup agrees with fs1_bmap |
| Fs1.BmapPanics | kernel/fs/fs1.c:305-326 | block numbers from MAXFILE on panic; below that fs1_bmap panics only for a missing block, and does so when the disk is full |
| Fs1.Emptied | kernel/fs/fs1.c:339-358 | the truncated inode keeps the full address array |
| Fs1.IupdateKeepsBitmap | kernel/fs/fs1.c:195-209 | writing an inode changes neither the superblock nor any block's in-use bit |
| Fs1.DirectFreesKeepIndirect | kernel/fs/fs1.c:339-347 | freeing the direct blocks leaves the indirect block's contents for the second loop |
| Fs1.FreeBlocksIsFreeAll | kernel/fs/fs1.c:339-355 | itrunc's two loops free exactly the file's blocks, direct, indirect entries and the indirect block, in order |
| Fs1.ItruncPanics | kernel/fs/fs1.c:334-360 | fs1_itrunc completes exactly when the file's blocks are distinct and all marked in use |
| Fs1.ItruncEmpties | kernel/fs/fs1.c:334-360 | after truncation every address and the size are zero, the disk inode matches, and the superblock is untouched |
| Fs1.ItruncFreesBlocks | kernel/fs/fs1.c:334-360 | truncation frees exactly the file's blocks and no others |
| Fs1.Idup | kernel/fs/fs1.c:247-252 | the cache keeps its size |
| Fs1.IdupThenIput | kernel/fs/fs1.c:247-289 | fs1_iput undoes fs1_idup |
| Fs1.IputDrops | kernel/fs/fs1.c:272-289 | without the last reference to an unlinked valid inode, fs1_iput drops one reference and changes nothing else |
| Fs1.IputPanics | kernel/fs/fs1.c:274-280 | freeing the last reference panics exactly when the inode is busy or its blocks cannot all be freed |
| Fs1.IputFrees | kernel/fs/fs1.c:274-289 | freeing the last reference writes a free, empty inode to disk and leaves the slot unreferenced and invalid, every other slot untouched |
| Fs1.IputFreesBlocks | kernel/fs/fs1.c:274-282 | the blocks freed by fs1_iput are exactly the file's blocks |
| Fs1.Ialloc | kernel/fs/fs1.c:171-192 | a created inode names a slot of an equally long cache |
| Fs1.IallocTakesLowest | kernel/fs/fs1.c:171-192 | fs1_ialloc panics when every inode from 1 is in use; otherwise it takes the lowest free one, writes a fresh inode of the type, and leaves the superblock |
| Fs1.IallocKeepsOthers | kernel/fs/fs1.c:181-186 | no other inode on disk changes |
| Fs1.NextFreeAbove | kernel/fs/fs1.c:179-182 | after an allocation the next free inode lies above it |
| Fs1.IallocTwice | kernel/fs/fs1.c:171-192 | two allocations in a row give increasing inode numbers |
| Fs1.SameBlock | kernel/fs/fs1.c:384-403 | a chunk that fits in the rest of a block stays in that block |
| Fs1.ReadCountBounds | kernel/fs/fs1.c:377-380 | fs1_readi refuses exactly an offset past the size or a wrapping count; otherwise it reads min(n, size - off) bytes without passing the size |
| Fs1.Prefixed | kernel/fs/fs1.c:385 | prefixing bytes to a transfer lengthens it by their number |
| Fs1.ReadFrom | kernel/fs/fs1.c:382-387 | a completed read loop returns exactly todo bytes |
| Fs1.ReadRound | kernel/fs/fs1.c:383-384 | one round of the read loop returns todo bytes |
| Fs1.ReadBlock | kernel/fs/fs1.c:383-386 | a chunk and the rest read together return m + rest bytes |
| Fs1.FileBytes | kernel/fs/fs1.c:382-387 | the file's contents from off are todo bytes long |
| Fs1.FileBytesSplit | kernel/fs/fs1.c:384-385 | the contents split into the first chunk of the current block and the rest |
| Fs1.AllMappedRest | kernel/fs/fs1.c:383 | when every block is mapped, the first is nonzero and the rest stay mapped |
| Fs1.ReadFromCons | kernel/fs/fs1.c:382-387 | one loop round prepends the current block's chunk |
| Fs1.ReadFromMapped | kernel/fs/fs1.c:382-387 | over mapped blocks the read loop allocates nothing and returns the file's contents |
| Fs1.Readi | kernel/fs/fs1.c:373-389 | reading changes only the inode's addresses; a full read fits within the size |
| Fs1.ReadiCount | kernel/fs/fs1.c:373-389 | fs1_readi returns -1 exactly for an offset past the size or a count that wraps; otherwise it returns min(n, size - off) bytes |
| Fs1.ReadiMapped | kernel/fs/fs1.c:373-389 | over mapped blocks fs1_readi returns the file's contents and leaves the disk alone |
| Fs1.WriteFrom | kernel/fs/fs1.c:401-407 | the address array keeps its size |
| Fs1.WriteRound | kernel/fs/fs1.c:402-403 | the address array keeps its size |
| Fs1.WriteBlock | kernel/fs/fs1.c:402-406 | the address array keeps its size |
| Fs1.WriteAcceptedBounds | kernel/fs/fs1.c:396-399 | fs1_writei accepts exactly an offset within the size whose end does not pass MAXFILE blocks |
| Fs1.WriteiRefuses | kernel/fs/fs1.c:392-399 | fs1_writei returns -1 with nothing changed exactly when the offset passes the size or the end passes MAXFILE blocks |
| Fs1.WriteiSize | kernel/fs/fs1.c:392-414 | a completed write returns n and the size becomes the larger of the old size and off + n |
| Fs1.WriteiFixedWritesBack | kernel/fs/fs1.c:409-412 | with the write-back made unconditional the disk inode matches the in-memory one after every write |
| Fs1.BallocKeepsInodes | kernel/fs/fs1.c:53-75 | allocating a block never touches an inode block |
| Fs1.WriteiInsideAsWritten | kernel/fs/fs1.c:392-414 | a write inside the file stores the bytes and keeps the new addresses in memory only, without fs1_iupdate |
| Fs1.WriteIntoHole | kernel/fs/fs1.c:305-308 | a one-byte write into a hole allocates a block, stores the byte and records it in the address array (see also fs1.c:402-405) |
| Fs1.WriteiLosesAddrsAsWritten | kernel/fs/fs1.c:409-412 | a write into a hole inside the file allocates an address that the disk inode never receives |
| Fs1State.GroupBit | kernel/fs/fs1.c:61-64 | bit bi of a bitmap group is block base + bi's bit |
| Fs1State.MarkInGroup | kernel/fs/fs1.c:63-66 | setting bit bi of the group's bitmap block marks block base + bi |
| Fs1State.NonzeroAt | kernel/fs/fs1.c:340-350 | the addresses freed from i on are s[i] when nonzero, then the rest |
| Fs1State.FreeOne | kernel/fs/fs1.c:341-351 | freeing a list frees its head, then the rest on the new disk |
| Fs1State.PrefixedTwice | kernel/fs/fs1.c:385 | two chunks read in turn are one longer chunk |
| Fs1State.ReadStep | kernel/fs/fs1.c:382-387 | one round of fs1_readi's loop takes the chunk of the block fs1_bmap gave and goes on from off + m |
| Fs1State.ReadPanics | kernel/fs/fs1.c:383 | a panic in fs1_bmap is a panic of the read |
| Fs1State.WriteStep | kernel/fs/fs1.c:401-407 | one round of fs1_writei's loop splices the chunk into the block fs1_bmap gave and goes on from off + m |
| Fs1State.WritePanics | kernel/fs/fs1.c:402 | a panic in fs1_bmap is a panic of the write |
| Fs1State.WriteiStored | kernel/fs/fs1.c:392-414 | a completed loop returns n; the size grows to off + n only when the write passes the end and n > 0, and only then (or when fixed) is the inode written back |
| Fs1State.FileSystem.constructor | kernel/fs/fs1.c:161-163 | the inode cache starts with every slot empty |
| Fs1State.FileSystem.Bzero | kernel/fs/fs1.c:41-48 | block bno becomes zeros and nothing else changes |
| Fs1State.FileSystem.FreeInGroup | kernel/fs/fs1.c:62-70 | the inner loop finds the lowest free block of the group within the size, or reports that none of them is free |
| Fs1State.FileSystem.Balloc | kernel/fs/fs1.c:53-75 | the loop panics exactly when the specification says the disk is full; otherwise it returns the block and disk the specification names |
| Fs1State.FileSystem.FirstFree | kernel/fs/fs1.c:59-70 | the outer loop finds the lowest free block, or proves every block is in use |
| Fs1State.FileSystem.MarkAndZero | kernel/fs/fs1.c:65-68 | the bit is set and the block zeroed, as Allocated says |
| Fs1State.FileSystem.Bfree | kernel/fs/fs1.c:78-92 | panics exactly when the block is free; otherwise the disk becomes the specification's |
| Fs1State.FileSystem.Iupdate | kernel/fs/fs1.c:195-209 | the inode's disk copy is written as Fs1.Iupdate says |
| Fs1State.FileSystem.Readinode | kernel/fs/fs1.c:477-492 | the slot takes the fields of its disk inode and no other slot changes |
| Fs1State.FileSystem.Idup | kernel/fs/fs1.c:247-252 | returns the same slot with one more reference |
| Fs1State.FileSystem.Iget | kernel/fs/fs1.c:214-243 | the cache loop agrees with Fs1.Iget, panic included |
| Fs1State.FileSystem.Ialloc | kernel/fs/fs1.c:171-192 | the inode loop agrees with Fs1.Ialloc, panic included |
| Fs1State.FileSystem.Bmap | kernel/fs/fs1.c:301-327 | agrees with Fs1.Bmap, changing only the slot's addresses and the disk |
| Fs1State.FileSystem.BmapIndirect | kernel/fs/fs1.c:312-324 | the indirect half of fs1_bmap agrees with the specification |
| Fs1State.FileSystem.IndirectBlock | kernel/fs/fs1.c:314-315 | loads or allocates the indirect block as Indirect says |
| Fs1State.FileSystem.IndirectEntry | kernel/fs/fs1.c:316-322 | reads or allocates the entry as MapEntry says |
| Fs1State.FileSystem.FreeNonzero | kernel/fs/fs1.c:339-344 | the direct loop frees the nonzero addresses in order, panicking as FreeAll does |
| Fs1State.FileSystem.FreeIndirect | kernel/fs/fs1.c:346-355 | the indirect loop frees the nonzero entries and then the indirect block |
| Fs1State.FileSystem.FreeBlocks | kernel/fs/fs1.c:339-355 | both loops together agree with Fs1.FreeBlocks |
| Fs1State.FileSystem.Itrunc | kernel/fs/fs1.c:334-360 | agrees with Fs1.Itrunc, panic included |
| Fs1State.FileSystem.Iput | kernel/fs/fs1.c:272-289 | agrees with Fs1.Iput, panic included |
| Fs1State.FileSystem.FreeInode | kernel/fs/fs1.c:278-285 | the freeing branch agrees with Fs1.Iput |
| Fs1State.FileSystem.MarkFree | kernel/fs/fs1.c:281-287 | the inode is written free and the slot dropped, unreferenced and invalid |
| Fs1State.FileSystem.Readi | kernel/fs/fs1.c:373-389 | agrees with Fs1.Readi: result, bytes, disk and addresses |
| Fs1State.FileSystem.ReadBlocks | kernel/fs/fs1.c:382-387 | the read loop agrees with ReadFrom |
| Fs1State.FileSystem.ReadChunk | kernel/fs/fs1.c:383-386 | one round shrinks the count and leaves the rest of the loop to ReadFrom |
| Fs1State.FileSystem.Writei | kernel/fs/fs1.c:392-414 | agrees with Fs1.Writei: result, disk and inode |
| Fs1State.FileSystem.WriteBlocks | kernel/fs/fs1.c:401-407 | the write loop agrees with WriteFrom |
| Fs1State.FileSystem.WriteChunk | kernel/fs/fs1.c:402-406 | one round shrinks the source and leaves the rest of the loop to WriteFrom |
| Fs1Dir.IgetKeepsAddressed | kernel/fs/fs1.c:214-243 | fs1_iget keeps every cache slot's address array whole |
| Fs1Dir.NameField | kernel/fs/fs1.c:469 | strncpy into de.name gives exactly DIRSIZ characters |
| Fs1Dir.ScanFrom | kernel/fs/fs1.c:432-446 | a found entry lies inside the directory, a miss leaves its size alone |
| Fs1Dir.ScanRead | kernel/fs/fs1.c:433-434 | the same for one read of the scan |
| Fs1Dir.ScanEntry | kernel/fs/fs1.c:435-443 | the same for one entry of the scan |
| Fs1Dir.Dirlookup | kernel/fs/fs1.c:425-447 | fs1_dirlookup's offset lies inside the directory and the cache keeps its size |
| Fs1Dir.SlotFrom | kernel/fs/fs1.c:462-467 | the free-entry scan stops between off and the size |
| Fs1Dir.SlotRead | kernel/fs/fs1.c:463-464 | the same for one read |
| Fs1Dir.SlotEntry | kernel/fs/fs1.c:465-466 | the same for one entry |
| Fs1Dir.Dirlink | kernel/fs/fs1.c:450-475 | fs1_dirlink returns 0 or -1 (the entries it leaves: Fs1Link.DirlinkPlaces) |
| Fs1Dir.LinkAt | kernel/fs/fs1.c:469-474 | writing the entry at off returns 0 and the directory's size becomes max(size, off + 16) |
| Fs1Dir.WriteiCount | kernel/fs/fs1.c:471 | a full 16-byte write makes the size max(size, off + 16) |
| Fs1Dir.UpToNulIs | kernel/fs/fs1.c:419-421 | the C-string contents end at the first NUL |
| Fs1Dir.ContentsAtLeast | kernel/fs/fs1.c:419-421 | i non-NUL characters give contents at least i long |
| Fs1Dir.ContentsEnd | kernel/fs/fs1.c:419-421 | contents end at a NUL at i |
| Fs1Dir.AgreeFrom | kernel/fs/fs1.c:419-421 | strncmp's character scan agrees exactly when the first DIRSIZ characters of both C strings agree |
| Fs1Dir.SameNameWithin | kernel/fs/fs1.c:419-421 | fs1_namecmp is 0 exactly when the names agree in their first DIRSIZ characters |
| Fs1Dir.NameFieldAgrees | kernel/fs/fs1.c:469 | the stored field agrees with the name position by position |
| Fs1Dir.NameFieldMatches | kernel/fs/fs1.c:437-469 | an entry written by fs1_dirlink is found by fs1_namecmp under its own name |
| Fs1Dir.NewEntryRoundTrip | kernel/fs/fs1.c:469-471 | the entry written reads back unchanged |
| Fs1Dir.FindName | kernel/fs/fs1.c:432-444 | the entry found is in use and matches the name |
| Fs1Dir.FindNameFirst | kernel/fs/fs1.c:432-444 | it is the first such entry; none found means none matches |
| Fs1Dir.FirstUnused | kernel/fs/fs1.c:462-467 | the slot found is free or is the end |
| Fs1Dir.FirstUnusedFirst | kernel/fs/fs1.c:462-467 | every entry before it is in use |
| Fs1Dir.Placed | kernel/fs/fs1.c:469-471 | the new entry sits at j, appended when j is the end, every other entry unchanged |
| Fs1Dir.PlacedFound | kernel/fs/fs1.c:450-475 | in the entries with a missing name placed, a search for the name finds the new entry (of the directory itself: Fs1Link.DirlinkFinds) |
| Fs1Dir.PlacedKeeps | kernel/fs/fs1.c:450-475 | in the entries with one name placed, the search for every other name is unchanged (of the directory itself: Fs1Link.DirlinkKeepsOthers) |
| Fs1Dir.Entries | kernel/fs/fs1.c:432 | a directory of size s holds s / 16 entries |
| Fs1Dir.ReadEntry | kernel/fs/fs1.c:433 | over mapped blocks the read of entry k returns 16 bytes, the k-th entry |
| Fs1Dir.ScanStep | kernel/fs/fs1.c:432-444 | one round of the lookup loop decodes the entry at off |
| Fs1Dir.ScanAtEntry | kernel/fs/fs1.c:435-443 | at entry k the loop returns on a used matching entry and moves on otherwise |
| Fs1Dir.ScanWhole | kernel/fs/fs1.c:432-446 | over a whole directory the loop from entry k returns what FindName finds |
| Fs1Dir.SlotStep | kernel/fs/fs1.c:462-467 | one round of the free-entry loop decodes the entry at off |
| Fs1Dir.SlotAtEntry | kernel/fs/fs1.c:465-466 | the loop stops at a free entry and moves on otherwise |
| Fs1Dir.SlotWhole | kernel/fs/fs1.c:462-467 | over a whole directory the loop stops at the first free entry or the end |
| Fs1Dir.DirlookupWhole | kernel/fs/fs1.c:425-447 | fs1_dirlookup on a whole directory returns the first used entry whose name matches, or nothing |
| Fs1Dir.LookedUpNothing | kernel/fs/fs1.c:446 | no match returns 0 with nothing changed |
| Fs1Dir.DirlinkWhole | kernel/fs/fs1.c:450-475 | fs1_dirlink fails or panics when the name is present; otherwise it writes the entry at the first free slot or the end |
| Fs1Dir.DirlinkOffset | kernel/fs/fs1.c:462-467 | that offset is a free entry, or the size when every entry is in use |
| Fs1Dir.DirlinkFull | kernel/fs/fs1.c:471-472 | appending to a full directory at MAXFILE blocks panics |
| Fs1Link.DirlinkPlaces | kernel/fs/fs1.c:450-475 | a successful fs1_dirlink into a whole directory, with the entry going to a block it has, found the name absent and leaves the old entries with the new one at the first unused index, or appended |
| Fs1Link.DirlinkFinds | kernel/fs/fs1.c:425-475 | after such a link, fs1_dirlookup of the name finds the new entry at that index |
| Fs1Link.DirlinkKeepsOthers | kernel/fs/fs1.c:425-475 | after such a link, fs1_dirlookup of every name the new entry does not match returns what it returned before |
| Mkfs.LayoutChecks | tools/mkfs.c:146-168 | a block holds a whole number of on-disk inodes and of directory entries, and nblocks + usedblocks + nlog equals the image size |
| Mkfs.OneBitmapBlock | tools/mkfs.c:160-161 | the bitmap is the single block ninodes/IPB + 3, holding every block's bit, and usedblocks ends right after it (see also mkfs.c:42) |
| Mkfs.BitmapInside | tools/mkfs.c:170-171 | the bitmap block lies inside the zeroed image (see also mkfs.c:339) |
| Mkfs.WithDinodeReadBack | tools/mkfs.c:282-303 | an inode written by winode reads back unchanged through rinode |
| Mkfs.XShort | tools/mkfs.c:91-98 | a 16-bit value in Intel byte order is two bytes |
| Mkfs.XInt | tools/mkfs.c:100-107 | a 32-bit value in Intel byte order is four bytes |
| Mkfs.XShortLittleEndian | tools/mkfs.c:91-98 | xshort gives the little-endian bytes, which read back as the value on a little-endian host and byte-swapped on a big-endian one |
| Mkfs.XIntLittleEndian | tools/mkfs.c:100-107 | xint gives the little-endian bytes, which read back as the value |
| Mkfs.I2b | tools/mkfs.c:278-280 | i2b is the file system's IBLOCK |
| Mkfs.BitmapMarks | tools/mkfs.c:328-340 | in balloc's bitmap, block b's bit is set exactly when b < used |
| Mkfs.BitmapStep | tools/mkfs.c:335-337 | one round of balloc's loop sets bit i and nothing else |
| Mkfs.BallocMarksFirst | tools/mkfs.c:328-340 | once balloc(used) writes the bitmap block, exactly the blocks below used are in use |
| Mkfs.NewDinode | tools/mkfs.c:316-324 | ialloc's inode has the type, one link, size 0 and no blocks |
| Mkfs.Take | tools/mkfs.c:359-361 | the slot gets the block freeblock names, as 32 bits |
| Mkfs.AppendFrom | tools/mkfs.c:355-386 | a successful append moves the offset by the length and never takes back a block |
| Mkfs.Locate | tools/mkfs.c:356-378 | locating a file block never takes back a block |
| Mkfs.LocateSlot | tools/mkfs.c:358-363 | a direct block is always located, without touching the disk |
| Mkfs.Indirect | tools/mkfs.c:365-369 | the indirect block's address is set when it was missing |
| Mkfs.LocateIndirect | tools/mkfs.c:371-377 | locating through the indirect block leaves the inode alone |
| Mkfs.AppendMap | tools/mkfs.c:356-378 | the same for each round's mapping |
| Mkfs.AppendIndirect | tools/mkfs.c:364-378 | the same through the indirect block |
| Mkfs.AppendAt | tools/mkfs.c:379-385 | a round copies at most up to the block's end and carries on |
| Mkfs.Appending | tools/mkfs.c:344-389 | a successful iappend leaves the inode's size grown by exactly n |
| Mkfs.Blocks | tools/mkfs.c:356 | the number of blocks that size bytes occupy |
| Mkfs.IappendGrows | tools/mkfs.c:387-388 | after iappend the inode on disk is the grown one |
| Mkfs.DirectArith | tools/mkfs.c:356-379 | a round's length is positive, within the data, and ends inside block fbn |
| Mkfs.Filled | tools/mkfs.c:359-361 | the slots b0..b-1 name fresh blocks fb, fb+1, ... and the rest are unchanged |
| Mkfs.FilledStep | tools/mkfs.c:359-361 | taking one slot and filling the rest is filling them all |
| Mkfs.TakePrefix | tools/mkfs.c:359-361 | taking the next direct slot keeps the used slots a prefix |
| Mkfs.FreshSlot | tools/mkfs.c:359-363 | an empty direct slot takes freeblock and freeblock moves on |
| Mkfs.TakenSlot | tools/mkfs.c:363 | a used direct slot is written in place |
| Mkfs.AppendDirect | tools/mkfs.c:344-389 | within the direct blocks, iappend takes exactly the fresh blocks freeblock, freeblock+1, ... for the slots it newly reaches, in order |
| Mkfs.AppendFresh | tools/mkfs.c:355-386 | the same from a block boundary |
| Mkfs.IndirectFirst | tools/mkfs.c:364-377 | the first indirect block takes freeblock and its first entry the next block |
| Mkfs.Padded | tools/mkfs.c:180-182 | the name zero-padded to DIRSIZ (see also mkfs.c:235) |
| Mkfs.DirEntry | tools/mkfs.c:180-182 | a directory entry is 16 bytes |
| Mkfs.DirEntryReadBack | tools/mkfs.c:180-182 | the kernel's dirent decoder reads the entry back as the inode number and the padded name |
| Mkfs.AppendEntry | tools/mkfs.c:344-389 | appending one entry inside a direct block copies it at the offset |
| Mkfs.LinkStep | tools/mkfs.c:183 | appending an entry to a directory inode is Links (see also mkfs.c:236) |
| Mkfs.DotsWritten | tools/mkfs.c:111-130 | a new directory gets one fresh block holding "." for itself and ".." for its parent, and size 32 (see also mkfs.c:180-188) |
| Mkfs.FirstDot | tools/mkfs.c:180-183 | the "." entry takes the first block |
| Mkfs.SecondDot | tools/mkfs.c:185-188 | the ".." entry follows it in the same block |
| Mkfs.DotsBlock | tools/mkfs.c:180-188 | the block holds both entries afterwards |
| Mkfs.SbSector | tools/mkfs.c:173-175 | the superblock sector is one block |
| Mkfs.SbSectorReadBack | tools/mkfs.c:155-175 | the superblock written to sector 1 reads back with the sizes mkfs chose |
| Mkfs.SbOfAddsUp | tools/mkfs.c:155-168 | the superblock's size is nblocks + usedblocks + nlog, with 200 inodes |
| Mkfs.ZeroImage | tools/mkfs.c:170-171 | the zeroed image holds zero blocks below its size |
| Mkfs.RoundedSizeEnds | tools/mkfs.c:249-260 | the size fix rounds up to the next block boundary, a whole block more when already on one (a block never allocated: a hole below the size), and wraps to 0 near 2^32 |
| Mkfs.Builder.constructor | tools/mkfs.c:74-80 | an empty image, freeinode 1 |
| Mkfs.Builder.Wsect | tools/mkfs.c:267-276 | the sector holds the buffer and the image grows to include it |
| Mkfs.Builder.Rsect | tools/mkfs.c:305-314 | a sector inside the image is read as it stands; outside it the read fails |
| Mkfs.Builder.Rinode | tools/mkfs.c:294-303 | the inode as stored, when its block is inside the image |
| Mkfs.Builder.Winode | tools/mkfs.c:282-292 | the inode stored, when its block is inside the image; nothing else changes |
| Mkfs.Builder.Ialloc | tools/mkfs.c:316-326 | the next inode number, with freeinode incremented and a fresh inode of the type written |
| Mkfs.Builder.Balloc | tools/mkfs.c:328-340 | with used below the block's bits, the bitmap of the first used blocks is written at its sector; otherwise the assert stops it |
| Mkfs.Builder.LocateBlock | tools/mkfs.c:356-378 | the block Locate names, counting each block taken in both freeblock and usedblocks |
| Mkfs.Builder.LocateFar | tools/mkfs.c:364-378 | the same through the indirect block |
| Mkfs.Builder.LocateEntry | tools/mkfs.c:371-377 | the same for one indirect entry |
| Mkfs.Builder.AppendRound | tools/mkfs.c:356-385 | one round of iappend, as AppendFrom describes |
| Mkfs.Builder.AppendLoop | tools/mkfs.c:355-386 | the loop's result is AppendFrom |
| Mkfs.Builder.Iappend | tools/mkfs.c:344-389 | the image and freeblock become what Appending says, usedblocks counting the same blocks |
| Mkfs.Builder.MakeRoot | tools/mkfs.c:177-188 | the root is inode 1 and holds "." and ".." naming itself |
| Mkfs.Builder.MakeDirs | tools/mkfs.c:190-192 | dev, bin and kexts take the next three inode numbers |
| Mkfs.Builder.FixSizes | tools/mkfs.c:248-260 | both sizes are fixed exactly when both inodes lie in the image |
| Mkfs.Builder.MakeDir | tools/mkfs.c:111-130 | the directory takes the next inode, holds its dots and is linked into its parent, as Mkdir describes |
| Mkfs.Builder.AddEntry | tools/mkfs.c:183 | the entry is appended to the directory as Link describes (see also mkfs.c:236) |
| Mkfs.Builder.FixSize | tools/mkfs.c:249-253 | the inode's size is rounded as RoundedSize says |
| Mkfs.Builder.ZeroFill | tools/mkfs.c:170-171 | the image becomes n zero blocks |
| Mkfs.Build | tools/mkfs.c:134-265 | the image has the full size, the root is inode 1, bin and kexts are 3 and 4, and the bitmap marks the first usedblocks blocks |
| Kalloc.PageRoundUp | kernel/kalloc.c:53 | PGROUNDUP gives the first page boundary at or above its argument |
| Kalloc.Kmem.Kfree | kernel/kalloc.c:63-79 | kfree panics, changing nothing, exactly on an unaligned page, one below the kernel's end or one at or above PHYSTOP; otherwise the page is filled with 1s and pushed on the list |
| Kalloc.Kmem.Kalloc | kernel/kalloc.c:84-95 | kalloc pops the head of the free list, or gives 0 with the list unchanged when it is empty |
| Kalloc.Kmem.FreeThenAlloc | kernel/kalloc.c:63-95 | kalloc right after a kfree that did not panic returns that page and leaves the list as it was |
| Kalloc.FilledPages | kernel/kalloc.c:51-71 | after freerange's kfrees of count pages from first, each of those pages holds 4096 bytes of 1 and every other page keeps its contents |
| Kalloc.Kmem.Freerange | kernel/kalloc.c:51-56 | every whole page from PGROUNDUP(vstart) that ends by vend is freed, last on top, stopping at the first kfree that panics; memory becomes Filled: exactly the freed pages junk-filled |
| Kalloc.Kmem.Kinit1 | kernel/kalloc.c:33-40 | the lock is off and, as Freerange states (FreedRange), the range's count freeable pages are pushed on the free list, last on top, stopping at a page kfree refuses; exactly those pages are junk-filled (Filled) |
| Kalloc.Kmem.Kinit2 | kernel/kalloc.c:42-49 | the range's pages are pushed on the free list and exactly they are junk-filled, as Freerange states; unless kfree panicked, the lock is then used and kmalloc is allowed |
| Kalloc.Kmem.KmallocAsWrittenLoop | kernel/kalloc.c:97-116 | kmalloc as written: the loop with its 8-bit counter leaves exactly KmallocAsWritten's result and list |
| Kalloc.KmallocLastPageFaults | kernel/kalloc.c:105-111 | with one free page, kmalloc(1) reads the next pointer of the NULL that follows it |
| Kalloc.KmallocWideCountFaults | kernel/kalloc.c:108 | kmalloc(256) never meets i == pages with a uint8 counter and runs off the list |
| Kalloc.KmallocIntended | kernel/kalloc.c:97-116 | corrected: a page exactly when set up and 1 <= pages <= free pages; then the head is returned and pages pages leave the list, otherwise the list is unchanged |
| Pipe.Pipe.constructor | kernel/pipe.c:35-39 | a new pipe has both ends open and no byte written or read |
| Pipe.Pipe.Close | kernel/pipe.c:60-74 | pipeclose clears the closing end's flag and frees the pipe once both are clear, leaving the bytes alone |
| Pipe.Pipe.Write | kernel/pipe.c:76-103 | pipewrite appends the bytes of addr in order while there is room; gives n when all fit, else F_ERROR when the reader has closed or the caller is killed and FNOT_READY otherwise, and FNOT_READY without the lock; the ring invariant is kept |
| Pipe.Pipe.Push | kernel/pipe.c:98 | one byte goes to slot nwrite mod PIPESIZE and is the newest of the contents |
| Pipe.Pipe.Read | kernel/pipe.c:105-133 | piperead: on an empty pipe with its writer open, F_ERROR for a killed caller and FNOT_READY otherwise; else the oldest min(n, count) bytes go to addr in order, leave the pipe and their count is returned |
| Pipe.DistinctSlots | kernel/pipe.c:85-98 | counters fewer than PIPESIZE apart name different slots, so a write never overwrites an unread byte |
| Pipe.PipeAlloc | kernel/pipe.c:26-58 | 0 exactly when both files and the page are allocated, with a read-only and a write-only end around a new empty pipe; otherwise -1 and no file |
| Console.CopiedStep | kernel/console.c:324 | copying one more committed character extends the copied prefix by one |
| Console.KillBack | kernel/console.c:270-276 | the kill-line loop stops at the commit index or just after a newline, with no newline erased |
| Console.Key | kernel/console.c:260-294 | every key keeps the ring's index invariant r <= w <= e <= r + INPUT_BUF |
| Console.Keys | kernel/console.c:259-295 | so does every sequence of keys |
| Console.DistinctSlots | kernel/console.c:286 | fewer than INPUT_BUF positions apart never share a slot |
| Console.KeyStores | kernel/console.c:283-293 | an ordinary nonzero key is stored exactly when the ring has room, at slot e, with \r turned into \n and no other slot changed; otherwise nothing is stored |
| Console.KeyCommits | kernel/console.c:288-291 | the line is committed exactly when a stored key is a newline, ^D or fills the ring, and then w becomes e |
| Console.KeyKeepsCommitted | kernel/console.c:260-294 | no key changes r or a committed character, and w never moves back |
| Console.BackspaceErasesOne | kernel/console.c:277-282 | backspace removes one uncommitted character, or does nothing |
| Console.KillLineErases | kernel/console.c:270-276 | ^U erases back to the commit index or the last newline, touching nothing else |
| Console.ConsumeFrom | kernel/console.c:307-330 | the read loop from got returns at most n committed characters, none of them ^D and only the last a newline |
| Console.ReadPromise | kernel/console.c:299-333 | consoleread returns at most n committed characters, stopping after n, after a newline, or before a ^D (consumed only when nothing was read), and -1 when killed |
| Console.Console.constructor | kernel/console.c:382-413 | the ring starts empty |
| Console.Console.Intr | kernel/console.c:255-297 | one key changes the ring as Key says |
| Console.Console.IntrAll | kernel/console.c:259-295 | consoleintr's loop changes the ring as Keys says |
| Console.Console.Read | kernel/console.c:299-333 | consoleread's loop agrees with Consume, copies the characters it returns into dst and changes nothing but r and dst |
| Console.PrintInt | kernel/console.c:85-105 | printint outputs the rendering of the number in the base, signed when asked |
| Console.Emit | kernel/console.c:102-104 | the digit buffer is output in reverse |
| Console.DigitsLengthLower | kernel/console.c:85-105 | upper- and lower-case digits are equally many |
| Console.RenderedAgreesWithKernelPrintf | kernel/console.c:85-105 | console printint renders as many characters as the formatting printint, and the same ones in base 10 |
| Console.DecimalCaseFree | kernel/console.c:85-105 | decimal digits have no case |
| ProcTable.ZeroNodes | kernel/proc.c:679-703 | a grown page holds n zeroed nodes |
| ProcTable.First | kernel/proc.c:99-104 | an EACH_PTABLE_NODE scan returns the first visited node that matches; none found means no visited node matches (see also proc.c:510-520) |
| ProcTable.Woken | kernel/proc.c:484-493 | the table keeps its length |
| ProcTable.WokenSpec | kernel/proc.c:484-493 | after wakeup1 no visited node sleeps on the channel; exactly those that did become runnable and nothing else changes |
| ProcTable.WokenIdempotent | kernel/proc.c:484-493 | waking a channel twice is waking it once |
| ProcTable.Eff | kernel/proc.c:362-367 | the effective priority is capped at PROC_MAX_PRIORITY |
| ProcTable.BumpBoosts | kernel/proc.c:362-380 | a skip raises a boostable process's effective priority by one up to the cap and leaves a non-boostable one at its priority |
| ProcTable.BestIn | kernel/proc.c:353-382 | the choice lies among the nodes scanned |
| ProcTable.BestInIsBest | kernel/proc.c:353-382 | the scheduler chooses nothing exactly when no scanned node is eligible; otherwise an eligible node with the highest effective priority, the last one of that priority |
| ProcTable.Scheduled | kernel/proc.c:353-397 | the table keeps its length |
| ProcTable.BestStep | kernel/proc.c:369-381 | a node replaces the choice exactly when it is eligible and its priority is at least the best so far |
| ProcTable.PartwayScheduled | kernel/proc.c:383-391 | after the scan the chosen node runs with skipped reset and the last node is untouched |
| ProcTable.Pass | kernel/proc.c:349-391 | the scan loop chooses BestIn and leaves the table as Scheduled says |
| ProcTable.PassStep | kernel/proc.c:354-381 | one node of the scan moves the choice and the skip counts as the specification says |
| ProcTable.ReservedSkipsDamned | kernel/proc.c:358-359 | a CPU reserved for blessed processes never chooses or touches an unblessed one |
| ProcTable.Reparented | kernel/proc.c:271-278 | the table keeps its length |
| ProcTable.Exited | kernel/proc.c:265-281 | the table keeps its length |
| ProcTable.ExitedReparents | kernel/proc.c:245-284 | the exiting process becomes a zombie, none of its children is left, each passes to init, and every other parent link is unchanged |
| ProcTable.KillZeroAsWritten | kernel/proc.c:506-523 | as written kill(0) marks a free slot killed, so the next allocproc hands out a process born killed |
| ProcTable.KillZeroFixed | kernel/proc.c:506-523 | when kill skips unused slots, kill(0) finds nothing in a fresh table |
| ProcTable.FixedKillFindsLive | kernel/proc.c:510-520 | the corrected kill finds a live process with the pid exactly when one is visible |
| ProcTable.GrowthFreesLast | kernel/proc.c:99-107 | when the table is full, growing it makes the former last node the first free one (see also proc.c:679-703) |
| ProcTable.AllocSlotFirstFree | kernel/proc.c:94-110 | allocproc fails exactly when no visited node is free and the page allocation fails; otherwise it takes the first free node of the possibly grown table |
| ProcTable.FirstUnmoved | kernel/proc.c:99-104 | changing a node without changing whether it matches leaves the scan's result alone |
| ProcTable.SetThenGetPriority | kernel/proc.c:608-631 | getpriority after setpriority finds the same process and returns the priority modulo 256 |
| ProcTable.WaitReapsZombie | kernel/proc.c:296-314 | wait finds a zombie exactly when the caller has a visible zombie child, and reaping frees the slot and clears its parent |
| ProcTable.PTable.constructor | kernel/proc.c:79-82 | the table starts as one page of zeroed nodes with nextpid 1 and no init |
| ProcTable.PTable.Find | kernel/proc.c:99-104 | the scan loop returns First |
| ProcTable.PTable.GrowPtable | kernel/proc.c:679-703 | growth appends a page of zeroed nodes and returns 1, or returns 0 and changes nothing |
| ProcTable.PTable.AllocProc | kernel/proc.c:94-139 | allocproc takes the first free node, growing when none, sets it up with the next pid and increments nextpid; without a free node and a page it changes nothing |
| ProcTable.PTable.WakeUp1 | kernel/proc.c:484-493 | the table becomes Woken |
| ProcTable.PTable.Kill | kernel/proc.c:506-523 | kill marks the first matching node killed and wakes it, returning 0, or returns -1 and changes nothing |
| ProcTable.PTable.Wait | kernel/proc.c:288-326 | wait reaps the first zombie child and returns its pid, otherwise returns -1 without children or when killed, and otherwise sleeps |
| ProcTable.PTable.ReparentChildren | kernel/proc.c:271-278 | the loop passes the children to init, waking init for zombies |
| ProcTable.PTable.Exit | kernel/proc.c:245-284 | exit panics exactly for init; otherwise the table becomes Exited |
| ProcTable.PTable.Schedule | kernel/proc.c:335-400 | a disabled CPU chooses nothing; otherwise the choice is BestIn and the table becomes Scheduled |
| ProcTable.PTable.Bless | kernel/proc.c:551-571 | only a blessed caller blesses the process with the pid, allocating it pipes, returning 1; otherwise 0 and nothing changes |
| ProcTable.PTable.Damn | kernel/proc.c:573-593 | only a blessed caller damns the process and drops its pipes, returning 1; otherwise 0 and nothing changes |
| ProcTable.PTable.GetPriority | kernel/proc.c:608-618 | the priority of the first process with the pid, or -1 |
| ProcTable.PTable.SetPriority | kernel/proc.c:620-631 | sets the priority modulo 256 of the first process with the pid and returns 1, or returns -1 |
| ProcTable.WakeReparentCommute | kernel/proc.c:268-278 | waking and reparenting one node commute, and waking is idempotent |
| ProcTable.StageWake | kernel/proc.c:273-276 | waking init in the middle of the reparenting loop keeps the loop's invariant |
| ProcTable.StageNext | kernel/proc.c:271-278 | one round of the loop advances the invariant |
| ProcTable.ReparentedStage | kernel/proc.c:271-278 | at the end of the loop the table is Reparented |
| Syscall.Int32Of | kernel/syscall.c:166-167 | the int32 result agrees with its value modulo 2^32 |
| Syscall.FetchIntBounds | kernel/syscall.c:17-22 | fetchint succeeds exactly when all four bytes lie below sz, and reads them little-endian as an int |
| Syscall.FetchUintpBounds | kernel/syscall.c:24-29 | fetchuintp succeeds exactly when all eight bytes lie below sz |
| Syscall.NulFrom | kernel/syscall.c:40-43 | the NUL found is the first one from addr below sz; none found means none there |
| Syscall.FetchStr | kernel/syscall.c:34-45 | fetchstr returns -1 for an address at or past sz, otherwise the length up to the first NUL below sz, or -1 without one |
| Syscall.FetchStrFinds | kernel/syscall.c:34-45 | a terminator is found exactly when one lies in the range, with no NUL before it |
| Syscall.FetchArg | kernel/syscall.c:48-59 | fetcharg yields a value exactly for argument numbers 0 to 5 |
| Syscall.ArgumentRegisters | kernel/syscall.c:48-59 | arguments 0 to 5 are rdi, rsi, rdx, rcx, r8 and r9 |
| Syscall.ArgPtrBounds | kernel/syscall.c:79-88 | argptr accepts exactly a pointer below sz whose end i + size is not past sz, and returns that pointer |
| Syscall.ArgPtrAcceptsNegativeSize | kernel/syscall.c:84-85 | as written argptr accepts a negative size: size -1 at address 16 passes |
| Syscall.ArgPtrIntendedBounds | kernel/syscall.c:79-88 | with the size required to be nonnegative argptr accepts exactly a block lying wholly below sz |
| Syscall.Process.constructor | kernel/syscall.c:163-175 | a process starts with its trap frame and no last system call |
| Syscall.Process.Dispatch | kernel/syscall.c:163-175 | syscall calls the handler exactly for a number in the table, records it and stores the handler's result in eax; otherwise eax becomes -1; the caller reads back the int result |
| Syscall.Int32OfRoundTrip | kernel/syscall.c:168-172 | an int stored in the 64-bit eax reads back as the same int |
| Acpi.FirstRdspFound | kernel/acpi.c:55-69 | what scan_rdsp finds is an RDSP at a 4-byte step from the base, lying within the area, and no earlier step holds one |
| Acpi.FirstRdspNone | kernel/acpi.c:55-69 | scan_rdsp finds nothing exactly when no candidate step within the area holds a signature with a zero byte sum |
| Acpi.ScanRdsp | kernel/acpi.c:55-69 | the loop steps 4 bytes while a whole RDSP fits and returns the first candidate FirstRdsp names |
| Acpi.Checksum | kernel/acpi.c:60-61 | the sum of the candidate's first 20 bytes |
| Acpi.LocatedIsRdsp | kernel/acpi.c:99-106 | whatever find_rdsp returns is an RDSP; it returns none only when no candidate in the BIOS area is one |
| Acpi.FindRdsp | kernel/acpi.c:99-106 | the first 1 KiB of the EBDA when its pointer is set, else the BIOS area from 0xE0000 |
| Acpi.EntriesTile | kernel/acpi.c:120-159 | the MADT entries the walk visits start at the table, have nonzero lengths, lie inside it and each starts where the one before ends |
| Acpi.ZeroLengthEntryHangs | kernel/acpi.c:125-158 | an entry of length 0 with 2 bytes left is never stepped over: the walk hangs |
| Acpi.LapicIdsEmpty | kernel/acpi.c:131-141 | no CPU is recorded exactly when no visited entry is an enabled LAPIC of full length |
| Acpi.RecordsNumbered | kernel/acpi.c:138-140 | the CPUs recorded are numbered consecutively from ncpu, with their APIC ids in table order |
| Acpi.ShortMadtRefused | kernel/acpi.c:113-116 | a null MADT or one shorter than its header gives -1 with nothing changed |
| Acpi.Io2V | include/memlayout.h:7-23 | IO2V keeps a 32-bit physical address's offset from DEVSPACE as its offset from DEVBASE, within 64 bits |
| Acpi.ConfiguredRecords | kernel/acpi.c:108-168 | a walk that ends within NCPU appends one CPU per enabled LAPIC, keeps the first I/O APIC's id, and with a CPU known sets ismp, sets lapic to IO2V of the MADT's lapic_addr_phys (its offset from DEVSPACE moved to DEVBASE) and gives 0 |
| Acpi.TooManyCpusFault | kernel/acpi.c:138-140 | more enabled LAPICs than NCPU writes cpus[NCPU]: a fault, exactly then; within NCPU a zero-length entry is a hang |
| Acpi.FirstConfigurationIff | kernel/acpi.c:161-167 | on a machine with no CPU yet acpi_config_smp gives 0 exactly when the MADT lists an enabled LAPIC |
| Acpi.LastMadtIsLast | kernel/acpi.c:186-203 | the root-table scan fails exactly when an entry lies above PHYSLIMIT, and otherwise keeps the last entry whose signature is "APIC" |
| Acpi.CountOfLength | kernel/acpi.c:186 | the entry count of a root table at least a header long is (length - 36) / 4; a shorter one wraps, through the 64-bit subtraction and the truncation to unsigned, to 2^32 - ceil((36 - length) / 4) |
| Acpi.ShortRootTableCount | kernel/acpi.c:186 | a length field 4 below the header size gives 2^32 - 1 entries |
| Acpi.RsdtCountOf | kernel/acpi.c:177-186 | the count acpiinit loops over, from the length field read from memory, as CountOfLength gives it |
| Acpi.NoRdspFaults | kernel/acpi.c:182-183 | as written, memory with no RDSP makes acpiinit dereference the null pointer find_rdsp returned |
| Acpi.NoRdspRefusedWhenFixed | kernel/acpi.c:182-183 | corrected: with no RDSP acpiinit gives -1 with nothing recorded; with one it agrees with the code as written |
| Acpi.HighTablesRefused | kernel/acpi.c:183-209 | a root table or an entry above PHYSLIMIT gives -1 with nothing recorded |
| Acpi.NoMadtRefused | kernel/acpi.c:187-205 | a root table that lists no MADT gives -1 with nothing recorded |
| Acpi.Smp.ConfigSmp | kernel/acpi.c:108-168 | acpi_config_smp on the globals: the result and new state are Configured's (lapic the IO2V virtual address), or the hang or the fault it names |
| Acpi.Smp.WalkEntries | kernel/acpi.c:123-159 | the entry loop: faults exactly when the LAPICs overrun cpus[]; otherwise hangs exactly when the walk does, and an ended walk leaves Walked's state |
| Acpi.Smp.Visit | kernel/acpi.c:130-157 | the switch on one entry: an enabled LAPIC appends CPU ncpu (or, with ncpu at NCPU, is the fault), a full I/O APIC entry counts and the first one sets ioapicid |
| Acpi.Smp.Init | kernel/acpi.c:176-210 | acpiinit: the result and new state are Initialised's (lapic the IO2V virtual address), or the hang or fault it names |
| Ed.ErrStr | user/ed/ed.c:305-332 | every error has a nonempty message |
| Ed.ErrStrDistinct | user/ed/ed.c:305-332 | distinct errors have distinct messages |
| Ed.ParseLineno | user/ed/ed.c:132-154 | parse_lineno consumes nothing exactly when the text does not start an address; '.' gives the current line and '$' the line count |
| Ed.LinenoAbsolute | user/ed/ed.c:138-142 | a decimal number is that line |
| Ed.LinenoRelative | user/ed/ed.c:138-141 | -x is x lines before the current line, and -0 is line 0 |
| Ed.ParseCommand | user/ed/ed.c:162-167 | at end of input the command is q with no address |
| Ed.ParseAddressed | user/ed/ed.c:187-213 | the address part always yields a command |
| Ed.Finish | user/ed/ed.c:211-213 | the command is the next character, and anything but the end of the line after it is a bad suffix |
| Ed.NoCommaInString | user/ed/ed.c:188 | have_comma is false exactly when the line, up to its NUL, has no comma |
| Ed.StartsAddressed | user/ed/ed.c:156-189 | a line starting with a digit goes through the address parser |
| Ed.AddressedRange | user/ed/ed.c:190-206 | x,y gives the range a = x, b = y with an address |
| Ed.AddressedSingle | user/ed/ed.c:200-206 | a single address without a comma gives a = b = x |
| Ed.RangeLayout | user/ed/ed.c:187-213 | where the parts of "x,yc\n" sit in the line |
| Ed.ParseRange | user/ed/ed.c:156-217 | "x,yc\n" parses to command c over lines x to y without error |
| Ed.SingleLayout | user/ed/ed.c:187-213 | where the parts of "xc\n" sit in the line |
| Ed.DigitsHaveNoComma | user/ed/ed.c:188 | a numeral has no comma |
| Ed.ParseSingle | user/ed/ed.c:156-217 | "xc\n" parses to command c at line x without error |
| Ed.ParseBadAddress | user/ed/ed.c:168-210 | a line starting with a space or a comma is a bad address |
| Ed.AddressedCommaOnly | user/ed/ed.c:194-198 | a comma not followed by an address is a bad address |
| Ed.ParseCommaWithoutSecond | user/ed/ed.c:192-198 | "x," followed by anything but an address is a bad address |
| Ed.CommaLayout | user/ed/ed.c:187-198 | where the parts of "x,rest" sit in the line |
| Ed.ParseTrailing | user/ed/ed.c:211-213 | a command letter followed by more text is a bad suffix, with the command still recorded |
| Ed.CutRange | user/ed/ed.c:236-257 | cutting never lengthens the buffer |
| Ed.Clip | user/ed/ed.c:236-257 | a clipped line number lies within the buffer |
| Ed.CutRangeKeepsOutside | user/ed/ed.c:236-257 | buffer_cut_range keeps exactly the lines outside a..b |
| Ed.OutsideShift | user/ed/ed.c:240-256 | the walk from line no keeps the lines outside the shifted range |
| Ed.InsertAt | user/ed/ed.c:259-287 | inserting adds one line |
| Ed.InsertAtPlaces | user/ed/ed.c:259-287 | the new line becomes line before and the others keep their order; past the end it is appended |
| Ed.InsertThenCut | user/ed/ed.c:236-287 | cutting the line just inserted gives the buffer back |
| Ed.InsertRun | user/ed/ed.c:463-474 | the typed lines from k on are all added |
| Ed.InsertRunStep | user/ed/ed.c:469-473 | one round of the insert loop inserts at before and moves before on |
| Ed.InsertRunDone | user/ed/ed.c:465-467 | the loop ends at the typed "." with the buffer as it is |
| Ed.InsertRunSplices | user/ed/ed.c:459-474 | the typed lines end up as one block before line before |
| Ed.SpliceShift | user/ed/ed.c:472-473 | inserting one line and moving on keeps the spliced block intact |
| Ed.ValidAddr | user/ed/ed.c:334-342 | an address is valid exactly when (0 for i, else 1) <= a <= b <= nlines |
| Ed.Buffer.Init | user/ed/ed.c:68-75 | an empty buffer at line 1, unchanged, not printing errors |
| Ed.Buffer.InitLoad | user/ed/ed.c:77-101 | the file's lines, with the current line the last |
| Ed.Buffer.Cut | user/ed/ed.c:236-257 | the lines become CutRange, and the buffer is marked changed when lines went away |
| Ed.Buffer.Insert | user/ed/ed.c:259-287 | the lines become InsertAt and the buffer is marked changed |
| Ed.QuitOnlyWhenSafe | user/ed/ed.c:441-447 | ed quits exactly on q with no address and no error when the buffer is unchanged or q was just given |
| Ed.QuitRefused | user/ed/ed.c:386-394 | an addressed q is an unexpected address (or a bad one) and a q over a changed buffer is refused once (see also ed.c:441-448) |
| Ed.DeleteMovesCursor | user/ed/ed.c:449-458 | d deletes lines a..b, the current line becomes a, or the last line, and at least 1, and the buffer is changed |
| Ed.InsertPlacesBlock | user/ed/ed.c:459-479 | i places the typed block before line a (1 for 0), and the current line becomes its last line |
| Ed.RememberedNameOverflows | user/ed/ed.c:488-490 | as written the remembered name gets sizeof(char *) + 1 bytes, too few for a longer name |
| Ed.UpToNulOfTerminated | user/ed/ed.c:490 | the NUL-terminated copy of a name without NUL reads back as the name |
| Ed.RememberName | user/ed/ed.c:488-491 | with strlen(ofname) + 1 bytes the remembered name is the whole name |
| Ed.Editor.constructor | user/ed/ed.c:344-372 | a file that opens is loaded; one that does not leaves an empty buffer and the error E_INPUT |
| Ed.Editor.Step | user/ed/ed.c:378-510 | one round of the command loop changes the state as Next says |
| Ed.Editor.Dispatch | user/ed/ed.c:414-499 | a known command changes the state as Execute says |
| Ed.Editor.Finish | user/ed/ed.c:500-509 | prev_was_q records q, and an error becomes the last error |
| Ed.Editor.PrintCmd | user/ed/ed.c:415-421 | p, n and newline as ExecPrint says |
| Ed.Editor.ToggleCmd | user/ed/ed.c:422-432 | H as ExecToggle says |
| Ed.Editor.HelpCmd | user/ed/ed.c:433-440 | h as ExecHelp says |
| Ed.Editor.QuitCmd | user/ed/ed.c:441-448 | q as ExecQuit says |
| Ed.Editor.DeleteCmd | user/ed/ed.c:449-458 | d as ExecDelete says |
| Ed.Editor.InsertCmd | user/ed/ed.c:459-479 | i as ExecInsert says |
| Ed.Editor.WriteCmd | user/ed/ed.c:480-496 | w as ExecWrite says |
| Ed.Editor.Delete | user/ed/ed.c:449-457 | the lines become CutRange and the current line is a, the last line, or 1 |
| Ed.Editor.InsertTyped | user/ed/ed.c:459-478 | the lines become InsertRun and the current line is the last inserted one, or a |
| Ed.Editor.Write | user/ed/ed.c:480-496 | w without a name is E_NO_FN; otherwise the name is remembered when none was, and the write fails with E_BAD_OF when the file does not open (see also ed.c:289-303) |
| Less.Back | user/less/less.c:57-66 | sub moves back at most n lines and stops only at the first line |
| Less.Ahead | user/less/less.c:70-79 | add moves ahead at most n lines and stops only at the last line |
| Less.BackThenAhead | user/less/less.c:57-79 | moving back n lines and ahead n lines returns to the same line when n lines lie before it |
| Less.Text.constructor | user/less/less.c:189-240 | no line has been read |
| Less.Text.Append | user/less/less.c:35-53 | append adds a last line numbered one past the previous one (1 for the first) holding the sz bytes and a NUL, and returns it |
| Less.Text.Sub | user/less/less.c:57-66 | sub of NULL is NULL; otherwise the line Back says |
| Less.Text.Add | user/less/less.c:70-79 | add of NULL is NULL; otherwise the line Ahead says |
| Less.Text.Search | user/less/less.c:176-186 | search returns the nearest line in its direction from lptr, lptr included, whose text contains s; NULL means none does |
| Less.StatusStart | user/less/less.c:144-145 | the status line starts at en - h + 1, at least 1, so it spans at most h lines ending at en |
| Less.ScrollLeft | user/less/less.c:315-322 | 'h' moves the margin left by hstep, not below 0 |
| Less.ScrollRight | user/less/less.c:323-330 | 'l' moves the margin right by hstep, not past BUFSZ - 2 |
| Less.ScrollRightThenLeft | user/less/less.c:315-330 | scrolling right and then left returns to the margin when no cap applies |
| Less.PageUp | user/less/less.c:267-277 | 'b' redraws exactly when more than h lines lie above, moving h lines up or back to line h |
| Krandom.Rnd | user/kexts/krandom.c:29 | the value drawn lies between 1 and 1982 |
| Krandom.NextLast | user/kexts/krandom.c:30 | the next state is (a * last + c) mod 2^63, the uint64 wrap-around changing nothing |
| Krandom.ModOfMod | user/kexts/krandom.c:30 | reducing modulo 2^64 first does not change the value modulo 2^63 |
| Krandom.ModUnique | user/kexts/krandom.c:30 | the remainder modulo 2^63 is unique |
| Krandom.LeBytes | user/kexts/krandom.c:32-40 | the serialised value has n bytes |
| Krandom.LeBytesRoundTrip | user/kexts/krandom.c:32-40 | reading the bytes back least significant first gives the value |
| Krandom.Pow256Eight | user/kexts/krandom.c:32-40 | eight bytes hold exactly the 64-bit values |
| Krandom.Pow256 | user/kexts/krandom.c:32-40 | a power of 256 is positive |
| Krandom.RndBytesReadBack | user/kexts/krandom.c:29-40 | the eight bytes written read back as rnd, and since rnd <= 1982 bytes 2 to 7 are zero |
| Krandom.CountdownFrom | user/kexts/krandom.c:43-45 | after k iterations the delay is max(30 - k, 0) |
| Krandom.Written | user/kexts/krandom.c:28-46 | k iterations write 8k bytes |
| Krandom.WrittenSnoc | user/kexts/krandom.c:28-46 | one more iteration appends the eight bytes of the next rnd |
| Krandom.WrittenGroups | user/kexts/krandom.c:28-46 | the i-th group of eight bytes read back is the i-th rnd |
| Krandom.Generator.constructor | user/kexts/krandom.c:24-27 | last starts at 1 and the delay at 30, with nothing written or slept |
| Krandom.Generator.Iterate | user/kexts/krandom.c:29-45 | one iteration advances last, writes the eight bytes of rnd, and sleeps delay and decrements it while it is positive |
| Krandom.Generator.IterateFor | user/kexts/krandom.c:28-46 | k iterations write Written and leave the delay at max(d - k, 0) |
| Krandom.Serialise | user/kexts/krandom.c:32-40 | the eight char casts of the shifts are the bytes of rnd least significant first |
| Krandom.CountdownStep | user/kexts/krandom.c:43-45 | counting down i times and once more is counting down i + 1 times |
| Krandom.SerialisedBytes | user/kexts/krandom.c:33-40 | the eight shifted bytes are LeBytes(rnd, 8) |

## Left out

- Locks, interrupts and concurrency: every operation runs as one atomic step, and the spinlocks of every module are not modelled.
- Tcp.TcpLayer.Send: a payload that overruns tcp_tx's 1500-byte segment buffer (kernel/tcp.c:159,175) is reported by the `overrun` flag, which ends the model there; the memory the C then corrupts is not modelled.
- Tcp.TcpLayer.Recv: a window wrapped above 4096 (see WindowOverrunAsWritten) makes the copy out run past the window; the model reports `overrun` and stops rather than modelling the bytes copied.
- Tcp.DataEvent: in the code as written a payload longer than `rcv.wnd` has the bytes past the window dropped and `rcv.wnd` wraps; the model keeps only the bytes that fit, and the corrupted memory past the 4096-byte window is not modelled.
- Tcp.TcpLayer.Connect: the source address tcp_tx reads through the null interface of an unbound block (kernel/tcp.c:176) is the `stray` parameter of Tcp.TcpLayer; what memory that read reaches is not modelled.
- Tcp.TcpLayer.Incoming: a push onto the backlog of a missing listener (kernel/tcp.c:355) is reported by `fault` and leaves the backlogs alone; the null-pointer write of the C is not modelled.
- Tcp.TcpLayer.Close: the sleeps of tcp_api_close, waiting for the FIN to be acknowledged, are collapsed into one step that zeroes the block.
- Tcp.TcpLayer.Incoming: a failing queue_push onto a listener's backlog (an allocation failure) is not modelled; the push always succeeds.
- Tcp.TcpLayer.Connect: the wait in SYN-SENT is a `blocked` result; AwaitConnected models the wake-up, returning 0 once the state has left SYN-SENT.
- tcp_timer_thread (kernel/tcp.c:191-245), the retransmission timer, is not modelled: it is driven by the clock and sleeps.
- tcp_init, udp_init, icmp_init and netinit only register handlers; the registration is Net.Registry.ProtoRegister and Ip.IpLayer.AddProtocol.
- Console.Console.Read: consoleread's sleep on an empty buffer becomes a WouldBlock result that ends the call, even after some characters were copied, where the C sleeps and carries on; a caller models the resumption by calling again.
- Console: the echo to the screen, and the reboot, halt and process-dump keys of consoleintr, are I/O and are not modelled.
- Ip.IpLayer.Tx: the mtu values that break ip_tx are outcomes, not preconditions. An mtu of 20 gives a fragment size of 0: each round sends the header alone, the first refused round ends the call with -1 (Ip.TxOutcome, Ip.IpLayer.TxEmpty), and a link that accepts every round makes the loop spin forever, which is reported as Hang with nothing sent. An mtu below 20 wraps the subtraction and one above 4096 overruns `packet[4096]`; both are reported as Fault.
- Ip.Room: the per-fragment payload is capped at the 4096-byte packet buffer (RoomSplitsAsSlen shows this agrees with ip.c's slen whenever the mtu fits).
- Ip.IpLayer.Tx: ip_tx_netdev's ARP resolution and the device's xmit callback are parameters, the ARP answer and whether the link accepts a frame.
- Ip.IpLayer.Tx: a dangling route or a null device, which the C dereferences, gives Fault.
- Udp.UdpLayer.Rx: a datagram longer than 4096 bytes (reachable through ip_rx's wrapped payload length, Ip.RxShortTotalLengthWraps) overruns the kalloc page that kernel/udp.c:92-96 copies it into; the model reports `fault` and stops, so the memory past the page is not modelled, and Udp.DeliveryQueuesOnce describes only the deliveries Rx makes without a fault.
- Udp.Tx and Icmp.Tx: a payload longer than the 65536-byte or ICMP_BUFSIZ transmit buffer gives Fault before anything is sent; the overrun itself is not modelled.
- ethernet_addr_ntop and ip_addr_ntop are not modelled: they are sprintf-style formatting; Ethernet.Format and Ip.Dotted are the reference texts the parse round trips use instead.
- Acpi: NCPU comes from param.h, which is not part of this model; it is the parameter `ncpuMax`. A MADT with more enabled LAPIC entries than that overruns `cpus[NCPU]`, which the model reports as Fault.
- Mkfs: the loop that copies host files into the image (tools/mkfs.c:194-246) reads the host file system and is not modelled; host I/O errors become aborts.
- Mkfs: the builder's counters are unbounded integers, and freeinode has no upper bound; the model does not prove that every step of a whole build succeeds, only what each step does.
- Fs1: fs1_stati and fs1_iunlock are not modelled (they copy fields out and release a sleep lock).
- Fs1Dir.Dirlookup and Fs1Dir.Dirlink are modelled as functions over the inode cache and the disk, not as methods of Fs1State.FileSystem.
- ProcTable.PTable.Damn: the pipes are dropped without pipeclose (kernel/proc.c:674-677), so they stay allocated with no owner; the model keeps only the `pipes` flag, not the pipe objects, so this leak does not show in it.
- Fs1Link.DirlinkPlaces: the link that appends to a directory whose last block is full, so that writei allocates a fresh block, is not covered; there the entries after the link also depend on the block the allocator hands out.
- Fs1State.FileSystem.constructor plays the part of fs1_iinit.
- Syscall: argint, arglong and arguintp all call fetcharg, so they are folded into Syscall.FetchArg; argstr is FetchArg followed by Syscall.FetchStr.
- Syscall: include/syscall.h is not part of this model, so the system-call numbers are not known; the dispatch table is a map from numbers to handlers.
- Klib.StrtolAsWritten: the 32-bit `int n` accumulator overflows on long digit runs; the model's value is unbounded.
- CString.Atoi: the 32-bit accumulator overflow is not modelled either.
- CText.Strtol: the contract-level strtol reads no 0x prefix, and does not clamp to LONG_MIN or LONG_MAX or set ERANGE.
- CString.Strncmp: characters are not bounded to 8 bits, so for chars above 255 the sign of the result is not the one C's unsigned-char comparison gives; the same holds for UnixString.Strcmp, which calls it (CString.Memcmp works on bytes and is exact).
- ProcTable: isblessed, fork, _fork, bfork, userinit, sleep, wakeup, sched, yield, forkret, pstate, pname, procdump and growproc are not modelled, and neither is the context switch; the scheduler pass is modelled as the choice it makes.
- Ed: printing and read_line are I/O; the input line is a parameter.
- Less: the terminal, poll and printing are I/O and are not modelled.
- Krandom: the blessing check, mkvdev and open are not modelled; one generator iteration is.
- Printf: screen mode (putc to a file descriptor) is I/O; only buffer mode is modelled.
- Printf.ShadowedCopy: a store at or past the end of the 16-character local buf (kernel/klib.c:140-141, 153-154) is undefined in C; the model stores nothing there, carries on as if the store were harmless, and reports it through `overrun`, so the stack memory it would corrupt is not modelled.
- Stdio: fopen, fgetc and the other stream functions are not modelled; only printint and the buffer-mode printf are.

## Findings

| source | as written | input that shows it | evidently intended | confidence | as-written member | corrected member |
|---|---|---|---|---|---|---|
| kernel/klib.c:72-87 | strtol ignores `base` and never stores the end position through `endptr` | strtol("ff", &end, 16) gives 0 and leaves `end` as it was | ISO C strtol: the value in the given base and the end after the last digit | not executed | Klib.StrtolIgnoresBase | CText.Strtol |
| kernel/ip.c:58-65 | ip_addr_pton reads the end pointer strtol never set, so it finds no digits and fails | "10.0.2.15" gives -1 | 0, with the four bytes 10, 0, 2, 15 stored | not executed | Ip.AddrPtonAsWritten | Ip.AddrPton |
| kernel/ethernet.c:23-24 | ethernet_addr_pton fails for the same reason, and also reads the hex octets in base 10 | "52:54:00:12:34:56" gives -1 | 0, with the six octets stored | not executed | Ethernet.AddrPtonAsWritten | Ethernet.AddrPton |
| kernel/klib.c:133-157 | in buffer mode the digits of %d and %x go into a local `buf` that shadows the caller's buffer; only the length advances | snprintf(buf, 4, "%d", 5) leaves buf[0] unchanged | the digits are copied into the caller's buffer | not executed | Printf.DigitsNeverStored | Printf.IntendedHoldsTruncatedText |
| kernel/klib.c:134-157 | the shadowing local `buf` has 16 characters, but the copy loop stores at `buf[len]` for every len below maxlen, so with an output offset of 16 or more it writes past the local array | snprintf(b, 32, "0123456789ABCDEF%d", 1) stores at local index 16 | the characters go to the caller's buffer, which holds maxlen of them | not executed | Printf.LocalOverrunAsWritten | Printf.IntendedHoldsTruncatedText |
| kernel/klib.c:213 | the terminating NUL goes to buf[len + 1], skipping buf[len], or to buf[maxlen], one past the buffer, when the text does not fit | snprintf(buf, 4, "ab") puts the NUL at buf[3] and leaves buf[2] unterminated | the NUL right after the text, at buf[min(len, maxlen - 1)] | not executed | Printf.TerminatorOneTooFar | Printf.IntendedSnprintf |
| kernel/klib.c:178-180 | once the buffer is full, %c does not take its argument, so later conversions read the wrong ones | "%c%d" with 65, 7 and maxlen 0 gives "A65" | every conversion takes its own argument: "A7" | not executed | Printf.CharArgumentReused | Printf.CharArgumentTakenOnce |
| kernel/net.c:33 | the device name is built with klib's snprintf("net%d"), whose digits are never stored | every device registered | "net0", "net1", … | not executed | Net.EveryDeviceIsNamedNet | Printf.IntendedHoldsTruncatedText |
| kernel/tcp.c:390-402 | the payload is copied into the window and `rcv.wnd` reduced by its length without checking that it fits | one byte arriving when `rcv.wnd` is 0 wraps `rcv.wnd` to 65535 | data that does not fit is not taken; the window stays sound | not executed | Tcp.WindowOverrunAsWritten | Tcp.EventExtends |
| kernel/tcp.c:539-587 | tcp_api_connect never picks an interface, and neither tcp_api_open nor tcp_api_bind sets one, so the SYN of every active open goes to tcp_tx with a null interface, which reads the source address through it (line 176) | connect on a freshly opened socket to any peer | take the interface of the route to the peer, as udp_api_sendto does, and fail without one | not executed | Tcp.UnboundSynAsWritten | Tcp.RoutedSyn |
| kernel/tcp.c:454-463 | a listening block's peer is the zeroed 0.0.0.0 port 0, so a segment from that address and port reaches the listener itself; a SYN then makes the listener SYN-RECEIVED with no listener of its own, and the ACK completing the handshake makes line 355 push onto the backlog through a null pointer | a SYN, then the ACK of the SYN+ACK, from 0.0.0.0 port 0 to a listening port | a listening block is never a connection: the SYN spawns a child of the listener | not executed | Tcp.ZeroPeerHandshakeAsWritten | Tcp.FixedPushHasParent |
| kernel/tcp.c:416-418 | a FIN in FIN-WAIT-1 goes straight to FIN-WAIT-2, so the CLOSING branch of lines 377-382 is dead | a simultaneous close: FIN-WAIT-1 receiving a FIN | FIN-WAIT-1 plus FIN goes to CLOSING, then TIME-WAIT on the ACK (section 3.9 of RFC 793) | not executed | Tcp.ClosingUnreachableAsWritten | Tcp.SimultaneousClose |
| kernel/ip.c:276-304 | the total-length check does not refuse a total length below the header length, so the payload length wraps | a header with total length 0 gives a payload length of 2^32 - 20 | such a datagram is dropped | not executed | Ip.RxShortTotalLengthWraps | Ip.RxCheckIntended |
| kernel/proc.c:506-523 | kill scans every node, unused ones too, and a free node has pid 0 | kill(0) on a fresh table marks a free node killed, and the next allocproc hands it out killed | kill(0) finds no process and returns -1 | not executed | ProcTable.KillZeroAsWritten | ProcTable.KillZeroFixed |
| kernel/kalloc.c:105-111 | kmalloc follows the free list's next pointer one page too far | one free page and kmalloc(1) reads the next pointer of NULL | a block is returned whenever enough pages are free | not executed | Kalloc.KmallocLastPageFaults | Kalloc.KmallocIntended |
| kernel/kalloc.c:108 | the page counter is a uint8, so `i == pages` never holds for 256 pages or more | kmalloc(256) runs off the end of the list | the count is as wide as `pages` | not executed | Kalloc.KmallocWideCountFaults | Kalloc.KmallocIntended |
| kernel/syscall.c:84-85 | argptr checks only the two ends of the block, so a negative size passes | size -1 at address 16 is accepted | a negative size is refused | not executed | Syscall.ArgPtrAcceptsNegativeSize | Syscall.ArgPtrIntendedBounds |
| kernel/acpi.c:182-183 | acpiinit uses find_rdsp's result without checking for NULL | memory with no RDSP signature | acpiinit returns -1 when there is no RDSP | not executed | Acpi.NoRdspFaults | Acpi.NoRdspRefusedWhenFixed |
| user/ed/ed.c:488-490 | the remembered file name gets malloc(sizeof(ofname) + 1), the size of a pointer plus one | a 9-character name is copied into 9 bytes | strlen(ofname) + 1 bytes | not executed | Ed.RememberedNameOverflows | Ed.RememberName |
| kernel/fs/fs1.c:409-412 | writei calls fs1_iupdate only when the size grows, so a block allocated for a hole inside the file keeps its address only in memory. The hole is reachable: tools/mkfs.c:248-260 rounds a directory size already on a block boundary up by a whole block it never allocates (Mkfs.RoundedSizeEnds), and the next fs1_dirlink writes its entry into that hole | a bin or root directory whose entries fill its last block exactly, as mkfs leaves it, then one link into it | write the inode back whenever bmap allocated a block | not executed | Fs1.WriteiLosesAddrsAsWritten | Fs1.WriteiFixedWritesBack |
