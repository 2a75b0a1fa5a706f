# GoogleHomeNotifierESP32AgentEx: split arrays and the device address

This project models two parts of the ESP32 agent that drives a Google Home
notifier. It proves what those parts do.

**SplitArray.cpp** splits a C string on a separator character. The result is
a `char **` array that owns a copy of each piece and ends with a NULL entry.
The file can also count, release and shuffle such an array. In the model:

- An array is an `array<Option<string>>`, where `None` is a NULL slot. A handle
  that may itself be NULL is an `Option` of one.
- The pieces between separators, as a left-to-right strchr scan finds them,
  are `SplitArray.Fragments`.
- The slots that `createSplitArray` fills are `SplitArray.SplitSlots`. Filling
  stops early because each empty piece decrements the loop bound `num`.
- What a reader stopping at the first NULL sees is `SplitArray.Elements`.
- The main theorem: the visible elements are exactly the fragments before the
  first empty one. When no fragment is empty, joining them with the separator
  gives back the input.
- `shuffleSplitArray` is modelled as the rolling "last written slot" moves it
  performs. It is proved to permute the counted slots and to leave the
  sentinel and the slots behind it in place.

**DeviceAddress.cpp** (`setDeviceAddress`) tells the notifier where the
Google Home device is:

1. It reads a cached dotted address from the flash file `/ip.txt` into a
   16-byte buffer.
2. If the cached text is longer than 8 characters, it asks that address for
   `/setup/eureka_info` on port 8008.
3. If the first response line contains "200", it splits the text on '.' and
   configures the notifier with the four octets.
4. Otherwise it looks the device up by name, writes the text of the address
   found (at most 15 characters) to `/ip.txt` and restarts the board.

The model treats these as an `Environment` input:

- the file content;
- the network, given as whether `connect()` succeeds, the `millis()`
  readings of the busy-wait and the response lines;
- the address the lookup finds, and the text `getIPAddress().toString()`
  gives for it, taken as given.

What the function does is a `Resolution` output: the probe exchange, the
notifier call, the file write and how it ends. `DeviceAddress.Resolve` states
that decision as a function, and `DeviceAddress.SetDeviceAddress` computes it
step by step on a 16-character buffer.

One consequence of the `> 8` gate is proved rather than assumed. An address
whose text has 8 characters or fewer is never probed. `10.0.0.5` is an
example, and so is an empty text. After discovery writes such a text, the next boot rediscovers
and restarts again (`DeviceAddress.ShortAddressRestartsAgain`).

The C library and Arduino string primitives the two files use are modelled
in the module `CStrings`. They are NUL-terminated strings, `strchr`, `strlen`,
`atoi`, `String::indexOf` and the decimal text of an octet.

## Model

| member | source | states |
|---|---|---|
| CStrings.StrChr | GoogleHomeNotifierESP32AgentEx/SplitArray.cpp:58 | strchr on the C string at `from`: NULL exactly when `c` is not in it, otherwise the position of its first occurrence |
| CStrings.StrLen | GoogleHomeNotifierESP32AgentEx/SplitArray.cpp:33 | strlen: the length of the C string at `from`, which is the position of its first NUL |
| CStrings.CStrPadded | GoogleHomeNotifierESP32AgentEx/SplitArray.cpp:25 | appending a terminator (and anything after it) does not change what a pointer to the buffer reads, as toCharArray relies on |
| CStrings.CStrAt | GoogleHomeNotifierESP32AgentEx/SplitArray.cpp:62-65 | after a NUL is written at p2, the pointer p1 reads exactly the characters between p1 and p2 |
| CStrings.Decimal | GoogleHomeNotifierESP32AgentEx/DeviceAddress.cpp:123-124 | the decimal text of an octet has 1 to 3 digits and digits only |
| CStrings.Atoi | GoogleHomeNotifierESP32AgentEx/DeviceAddress.cpp:104-105 | atoi skips leading white space and reads an optional sign and the digits after it; the value is negative only when the first non-space character is '-' |
| CStrings.AtoiDecimal | GoogleHomeNotifierESP32AgentEx/DeviceAddress.cpp:104-105 | atoi reads back the decimal text of every natural number |
| CStrings.IndexOf | GoogleHomeNotifierESP32AgentEx/DeviceAddress.cpp:92 | String::indexOf: -1 exactly when the pattern occurs nowhere from `from` on, otherwise its first occurrence |
| SplitArray.FragmentsCount | GoogleHomeNotifierESP32AgentEx/SplitArray.cpp:41-48 | a string with k separators has k + 1 fragments, none containing the separator |
| SplitArray.JoinFragments | GoogleHomeNotifierESP32AgentEx/SplitArray.cpp:57-71 | joining the fragments with the separator gives back the string |
| SplitArray.FragmentsJoin | GoogleHomeNotifierESP32AgentEx/SplitArray.cpp:57-71 | splitting a join of separator-free pieces gives back those pieces |
| SplitArray.CountSeparators | GoogleHomeNotifierESP32AgentEx/SplitArray.cpp:41-47 | the strchr counting loop ends with num one less than the number of fragments (the separator count), so line 48's `num += 1` gives the fragment count |
| SplitArray.CreateSplitArray | GoogleHomeNotifierESP32AgentEx/SplitArray.cpp:31-75 | NULL exactly for the empty string; otherwise a fresh array holding the slots of `Split` |
| SplitArray.CreateSplitArrayFromString | GoogleHomeNotifierESP32AgentEx/SplitArray.cpp:16-29 | the String overload: NULL exactly when the copied C string is empty, otherwise the split of that C string |
| SplitArray.SingleFragment | GoogleHomeNotifierESP32AgentEx/SplitArray.cpp:54-55 | a non-empty string with one fragment gives the whole string, then NULL |
| SplitArray.SplitWithoutSeparator | GoogleHomeNotifierESP32AgentEx/SplitArray.cpp:54-55 | a non-empty string without the separator splits to itself followed by NULL |
| SplitArray.FillSlots | GoogleHomeNotifierESP32AgentEx/SplitArray.cpp:57-71 | the filling loop leaves the array equal to `SplitSlots` of the fragments of the copy |
| SplitArray.FillStep | GoogleHomeNotifierESP32AgentEx/SplitArray.cpp:58-70 | one pass stores a copy of the i-th fragment when it is non-empty, else decrements num, and moves p1 to the next fragment |
| SplitArray.CutFragment | GoogleHomeNotifierESP32AgentEx/SplitArray.cpp:58-63 | strchr plus the NUL write isolate the i-th fragment at p1, and p2 is the end of the copy exactly at the last fragment |
| SplitArray.EmptyFragmentLeavesHole | GoogleHomeNotifierESP32AgentEx/SplitArray.cpp:65-69 | an empty fragment leaves its slot NULL and lowers the loop bound by one |
| SplitArray.SplitElements | GoogleHomeNotifierESP32AgentEx/SplitArray.cpp:57-71 | the split is NULL-terminated; its count and its visible elements are the fragments before the first empty one |
| SplitArray.SplitHasSentinel | GoogleHomeNotifierESP32AgentEx/SplitArray.cpp:50-52 | a non-empty string gives an array of separators + 2 slots that contains a NULL |
| SplitArray.SplitWellFormed | GoogleHomeNotifierESP32AgentEx/SplitArray.cpp:31-75 | with no empty fragment, the count is separators + 1, the elements are the fragments, and joining them gives back the input |
| SplitArray.SplitAdjacentSeparators | GoogleHomeNotifierESP32AgentEx/SplitArray.cpp:65-69 | "a..b" on '.' yields only "a": the hole hides "b" and the bound stops the loop before it |
| SplitArray.SplitLeadingSeparator | GoogleHomeNotifierESP32AgentEx/SplitArray.cpp:65-69 | ".a" on '.' yields an array whose count is 0 |
| SplitArray.SplitTrailingSeparator | GoogleHomeNotifierESP32AgentEx/SplitArray.cpp:65-69 | "a." on '.' yields the single element "a" |
| SplitArray.SplitCopyBehindHole | GoogleHomeNotifierESP32AgentEx/SplitArray.cpp:65-69 | "a..b.c" stores "b" behind a NULL hole, so a reader sees one element; the copy of "b" is unreachable |
| SplitArray.CountSplitArray | GoogleHomeNotifierESP32AgentEx/SplitArray.cpp:78-85 | 0 for a NULL handle, otherwise the index of the first NULL slot |
| SplitArray.DeleteSplitArray | GoogleHomeNotifierESP32AgentEx/SplitArray.cpp:88-100 | frees exactly the visible elements, in order, NULLs their slots and leaves the slots behind the first NULL untouched |
| SplitArray.ShuffleSplitArray | GoogleHomeNotifierESP32AgentEx/SplitArray.cpp:104-117 | the array after shuffling is `Shuffled` of the array before, for the drawn indices |
| SplitArray.CyclePermutes | GoogleHomeNotifierESP32AgentEx/SplitArray.cpp:111-116 | the rolling moves permute the slots below n, with the held pointer in the last written slot, and leave the rest alone |
| SplitArray.ShufflePermutes | GoogleHomeNotifierESP32AgentEx/SplitArray.cpp:104-117 | shuffling permutes the counted slots, keeps the NULL sentinel and everything after it, and keeps the count and the multiset of elements |
| DeviceAddress.ReadStored | GoogleHomeNotifierESP32AgentEx/DeviceAddress.cpp:57-63 | the zeroed buffer holds up to 15 bytes of the file and is NUL-terminated |
| DeviceAddress.LoadedText | GoogleHomeNotifierESP32AgentEx/DeviceAddress.cpp:57-63 | the cached text is empty without a file, otherwise the file's C string cut to 15 characters |
| DeviceAddress.LoadAddress | GoogleHomeNotifierESP32AgentEx/DeviceAddress.cpp:57-66 | the length strlen finds in the fresh buffer is that of the cached text |
| DeviceAddress.RequestShape | GoogleHomeNotifierESP32AgentEx/DeviceAddress.cpp:73-75 | the request is the HTTP/1.1 request line for /setup/eureka_info, a Host header with the address, and Connection: close ending the header block |
| DeviceAddress.RequestInjective | GoogleHomeNotifierESP32AgentEx/DeviceAddress.cpp:73-75 | different hosts give different requests |
| DeviceAddress.ElapsedAcrossWrap | GoogleHomeNotifierESP32AgentEx/DeviceAddress.cpp:80 | the unsigned difference of millis() readings measures the time elapsed, even across the 32-bit wrap |
| DeviceAddress.TimesOutExactly | GoogleHomeNotifierESP32AgentEx/DeviceAddress.cpp:78-85 | the wait times out exactly when some pass saw no data more than 5000 ms after the start, with no earlier pass ending the wait |
| DeviceAddress.Await | GoogleHomeNotifierESP32AgentEx/DeviceAddress.cpp:78-85 | the busy-wait reports a timeout exactly as `TimesOut` says |
| DeviceAddress.Contains200Occurs | GoogleHomeNotifierESP32AgentEx/DeviceAddress.cpp:92 | "200" is found in a line exactly when it occurs somewhere in it |
| DeviceAddress.Has200 | GoogleHomeNotifierESP32AgentEx/DeviceAddress.cpp:92 | the indexOf test agrees with `Contains200` |
| DeviceAddress.CheckResponse | GoogleHomeNotifierESP32AgentEx/DeviceAddress.cpp:86-97 | the reading loop succeeds exactly when the first line contains "200" |
| DeviceAddress.LaterLinesIgnored | GoogleHomeNotifierESP32AgentEx/DeviceAddress.cpp:86-97 | only the first line decides; later lines are read and dropped |
| DeviceAddress.Probe | GoogleHomeNotifierESP32AgentEx/DeviceAddress.cpp:67-98 | the exchange is connect to port 8008, then the request if connected; success exactly when connected, not timed out, and the first line contains "200" |
| DeviceAddress.Text | GoogleHomeNotifierESP32AgentEx/DeviceAddress.cpp:123-124 | the dotted-quad text of an IPv4 address (the format IPAddress::toString() is taken to have) has 7 to 15 characters |
| DeviceAddress.TextShape | GoogleHomeNotifierESP32AgentEx/DeviceAddress.cpp:123-124 | an address text has 7 to 15 characters and no NUL, so it fits the buffer; it is four non-empty dot-free fields joined by '.' |
| DeviceAddress.ParseText | GoogleHomeNotifierESP32AgentEx/DeviceAddress.cpp:103-105 | splitting an address text on '.' and taking atoi of the four fields gives back the address |
| DeviceAddress.OctetDecimal | GoogleHomeNotifierESP32AgentEx/DeviceAddress.cpp:104-105 | atoi of an octet's decimal text, stored in a uint8_t, is that octet |
| DeviceAddress.ParseAddress | GoogleHomeNotifierESP32AgentEx/DeviceAddress.cpp:103-107 | splitting, four atoi calls and the release give the octets of the first four fields |
| DeviceAddress.Snprintf | GoogleHomeNotifierESP32AgentEx/DeviceAddress.cpp:123-124 | the buffer holds the text cut to 15 characters and NUL-terminated; the bytes after the terminator are unchanged |
| DeviceAddress.WrittenCut | GoogleHomeNotifierESP32AgentEx/DeviceAddress.cpp:123-125 | what snprintf leaves in the 16-byte buffer and print writes is a prefix of the text: all of a C string shorter than 16, exactly 15 characters of a longer one |
| DeviceAddress.WrittenText | GoogleHomeNotifierESP32AgentEx/DeviceAddress.cpp:123-125 | an address text is written whole |
| DeviceAddress.SetDeviceAddress | GoogleHomeNotifierESP32AgentEx/DeviceAddress.cpp:34-134 | the step-by-step function produces the probe, notifier call, file write and ending that `Resolve` prescribes |
| DeviceAddress.CachePath | GoogleHomeNotifierESP32AgentEx/DeviceAddress.cpp:101-112 | a verified cached address is parsed and configured; nothing is written, and the function returns true |
| DeviceAddress.DiscoveryPath | GoogleHomeNotifierESP32AgentEx/DeviceAddress.cpp:113-131 | otherwise the device is looked up by name, /ip.txt receives at most 15 characters of the notifier's text for its address (all of it when it fits, the dotted quad of the address when that is the text), and the board restarts |
| DeviceAddress.ShortTextSkipsProbe | GoogleHomeNotifierESP32AgentEx/DeviceAddress.cpp:66 | a cached text of 8 characters or fewer is never probed and leads to discovery |
| DeviceAddress.AbsentFileDiscovers | GoogleHomeNotifierESP32AgentEx/DeviceAddress.cpp:57-66 | without the file there is no probe, and the device is looked up by name |
| DeviceAddress.ConnectFailureDiscovers | GoogleHomeNotifierESP32AgentEx/DeviceAddress.cpp:69-71 | a failed connect sends no request and leads to discovery |
| DeviceAddress.TimeoutDiscovers | GoogleHomeNotifierESP32AgentEx/DeviceAddress.cpp:78-85 | a timed-out wait leads to discovery |
| DeviceAddress.CacheIffFirstLine | GoogleHomeNotifierESP32AgentEx/DeviceAddress.cpp:86-101 | once connected without a timeout, the cached address is used exactly when the first line contains "200" |
| DeviceAddress.ResolveIgnoresLaterLines | GoogleHomeNotifierESP32AgentEx/DeviceAddress.cpp:86-97 | response lines after the first do not change the outcome |
| DeviceAddress.NotifierResultIgnored | GoogleHomeNotifierESP32AgentEx/DeviceAddress.cpp:108-117 | whether ip() or device() fails does not change the outcome; a failure is only logged (`SetDeviceAddress` tests the result at both calls and does nothing else with it) |
| DeviceAddress.ReloadAfterDiscovery | GoogleHomeNotifierESP32AgentEx/DeviceAddress.cpp:113-131 | after discovery, the next call loads exactly the text written; when that text is the dotted quad of the address found and is verified, that address is configured |
| DeviceAddress.ShortAddressRestartsAgain | GoogleHomeNotifierESP32AgentEx/DeviceAddress.cpp:66 | when the text written has at most 8 characters (a short address, or an empty text), the next call skips the probe, writes the same file and restarts again |
| DeviceAddress.ShortAddressExample | GoogleHomeNotifierESP32AgentEx/DeviceAddress.cpp:66 | 10.0.0.5 is such an address: its text has 8 characters |

## Left out

- SplitArray: the scratch copy `datp` is a `seq<char>` rewritten as values rather than a heap buffer. strdup and malloc are the creation of fresh strings and of a fresh array. free has no counterpart beyond `DeleteSplitArray` returning what it releases.
- SplitArray.CreateSplitArray: does not model allocation failure of strdup or malloc, which returns NULL in the source.
- SplitArray.CreateSplitArray: requires a separator other than NUL. strchr with '\0' finds the terminator, which the source never passes.
- SplitArray.ShuffleSplitArray: the indices `random(size)` returns are a parameter. Their distribution is not modelled, only that each is below the count.
- CStrings.Atoi: the value is unbounded. An int overflow in atoi is undefined behaviour and is not modelled.
- Bytes of the file and of the buffers are modelled as characters.
- DeviceAddress: SPIFFS.begin/end, the debug output (dbg) and getLastError are left out. ESP.restart() is the `Restarted` ending, and nothing after it is modelled.
- DeviceAddress: the network, millis() and the notifier's lookup are inputs of the `Environment`. The notifier's own behaviour is not part of this model.
- DeviceAddress.Text: IPAddress::toString() is not part of this model. Its result is the input `foundText`, which may be any text, so the write-side cut to 15 characters is modelled. `Text` is the "%u.%u.%u.%u" format of an IPv4 address, used only as a reference: the lemmas about reloading a discovered address assume `foundText` has that format.
- DeviceAddress.SetDeviceAddress: requires that the list of busy-wait passes given as input reaches a pass that ends the wait (`WaitEnds`). On the device millis() keeps advancing, so the wait always ends about 5 s after the request; the finite list must include that pass.
- DeviceAddress.SetDeviceAddress: requires that a verified cached address splits into at least four fields (`Defined`). With fewer, the source passes NULL or reads past the array in atoi(ar[k]), which is undefined.
- DeviceAddress.Probe: readStringUntil's own timeout and partial reads are not modelled. The response is the sequence of lines the device sends.
- The commented-out test blocks of DeviceAddress.cpp and the header files SplitArray.h and DeviceAddress.h are not part of this model.
