# xonsh_shells: shared environment cache and CIDR calculator, in Dafny

This project models two parts of a collection of xonsh shell add-ons and
proves properties of them.

**The shared environment-variable cache.** A `SharedCache` keeps a set of
environment variables the same across several shells by way of one file.
- `share_value` starts tracking names and saves.
- A save refreshes every tracked value from the shell environment and
  overwrites the whole file with the tracked dictionary.
- A load reads the file and pushes each entry into the environment. A
  `None` value deletes a variable that is set; any other value, and `None`
  for a variable that is not set, is stored.
- `__call__` reloads only when the file is strictly newer than the last
  sync.

There are two variants, modelled one module each.
- `PickleCache` (`xontrib/shared_cache.py`): the file is a pickle, and a
  load REPLACES the tracked dictionary.
- `JsonCache` (`shared_cache.py`): the file is JSON, `share_value` only
  adds names not yet tracked, and a load MERGES the file into the tracked
  dictionary.

Both variants are classes whose methods update `shared` and `timestamp` in
place. The shell environment is an `Environment` object whose dictionary
the loads change in place. The file is a `BackingFile` object holding an
abstract state: `Missing`, `Corrupt(mtime)` or `Present(doc, mtime)`. A
value of `None` is `Option.None`, so `None` stays distinct from the empty
string. The clock is an integer parameter `now`.

**The CIDR calculator** (`CIDR.py`). It reads an IPv4 address with a prefix
length or a dotted netmask, in the address/prefix notation of section 3.1
of RFC 4632. It computes the mask, the bit length, the network address, the
first and last hosts, the broadcast address and the count of available
addresses.
- Python integers are unbounded, so every quantity is an `int`.
- `&`, `|` and `~` are defined bit by bit over 32 bits (module `Bits`) and
  proved equal to closed forms on prefix masks.
- `ip | ~mask` is negative in Python. The model keeps it exactly:
  `Or(ip, Complement(mask, 32), 32) - 2**32`.
- The mask loop of `__init__` is a method with a loop invariant.
- `convert`, `int()`, `str.split` and `'%d'` are functions, with
  round-trip lemmas (module `Text` for the string parts).

## Model

| member | source | states |
|---|---|---|
| Text.Find | CIDR.py:25 | `'/' in network` exactly when a position is found; that position holds the first `/` |
| Text.FindAfterPiece | CIDR.py:25-26 | the first `/` after slash-free text is found right after that text |
| Text.Split | CIDR.py:38 | `split('.')` yields at least one piece, and no piece contains the separator |
| Text.JoinSplit | CIDR.py:43 | joining the pieces of a split with the separator gives back the original text |
| Text.SplitJoin | CIDR.py:59 | splitting the dot-join of dot-free pieces gives back exactly those pieces |
| Text.SplitNoSeparator | CIDR.py:43 | text without a separator splits into itself alone |
| Text.SplitAfterPiece | CIDR.py:43 | a separator after separator-free text ends the first piece there |
| Text.ShowNat | CIDR.py:59 | `'%d'` of a non-negative number is canonical decimal text, with no leading zero when the number is positive |
| Text.ParseInt | CIDR.py:31 | `int()` accepts only an optional sign followed by digits, so text with a `.` is no integer; a negative result comes only from a leading `-` |
| Text.ParseShow | CIDR.py:59 | the digits `'%d'` writes are worth the number written |
| Text.ParseIntShow | CIDR.py:31 | `int()` reads back what `'%d'` wrote |
| Text.ParseIntCanonical | CIDR.py:44 | `int()` reads canonical decimal text as its digits' value |
| Text.ShowParse | CIDR.py:59 | `'%d'` writes a canonical number back as the same text |
| Text.LeadingDigitPositive | CIDR.py:44 | digit text with a non-zero first digit is worth at least one |
| Bits.And | CIDR.py:47 | `a & b` on 32 bits is a 32-bit word |
| Bits.Or | CIDR.py:48 | `a \| b` on 32 bits is a 32-bit word |
| Bits.Complement | CIDR.py:73 | `~a & thirtytwo` is a 32-bit word |
| Bits.PopCount | CIDR.py:41 | `bin(mask).count('1')` is at most the number itself, and 0 only for 0 |
| Bits.ComplementValue | CIDR.py:73 | `~a & thirtytwo` equals `thirtytwo - (a mod 2**32)` |
| Bits.AndHighOnes | CIDR.py:49 | and-ing a run of high ones from bit `k` clears exactly the bits of `x` below `k` |
| Bits.OrLowOnes | CIDR.py:48 | or-ing the `k` low ones sets exactly the bits below `k` and keeps the rest |
| Bits.OrOnes | CIDR.py:48 | or-ing `k` low ones into a `w`-bit word `x` gives `x` less its low `k` bits plus `2**k - 1` |
| Bits.OrDisjoint | CIDR.py:44-45 | or-ing a value below `2**k` into a multiple of `2**k` adds them |
| Bits.AndComplementDisjoint | CIDR.py:49 | `(x & m) & ~m` is 0 |
| Bits.PopCountHighOnes | CIDR.py:41 | a run of high ones from bit `k` to bit `w - 1` has `w - k` one bits |
| Cidr.OctetsMod | CIDR.py:52-58 | the four octets of `n` depend only on `n mod 2**32`, negative `n` included |
| Cidr.Octets | CIDR.py:55-58 | `convert` takes four values, each in 0..255 |
| Cidr.Convert | CIDR.py:52-59 | the text `convert` returns for any integer is 7 to 15 characters long |
| Cidr.ConvertMod | CIDR.py:52-59 | `convert(n) == convert(n mod 2**32)` for every integer `n` |
| Cidr.PackOctets | CIDR.py:55-58 | a 32-bit word is the sum of its four octets in their places |
| Cidr.OctetsPack | CIDR.py:55-58 | four values below 256, packed, come back out as the octets |
| Cidr.ConvertJoin | CIDR.py:59 | `'%d.%d.%d.%d'` is the four decimal fields joined by dots |
| Cidr.ConvertFields | CIDR.py:52-59 | `convert` writes exactly four dot-separated fields, each the decimal text of an octet in 0..255 |
| Cidr.QuadOctets | CIDR.py:43-45 | the four values read from an address or netmask each lie in 0..255 |
| Cidr.DottedValue | CIDR.py:44-45 | `a<<24 \| b<<16 \| c<<8 \| d` of a dotted quad is a 32-bit word |
| Cidr.DottedValueSum | CIDR.py:39-40 | the shifted fields do not overlap, so the or-ing equals the place-value sum |
| Cidr.ParseConvert | CIDR.py:43-45 | reading back what `convert(n)` writes gives `n mod 2**32`, negative `n` included |
| Cidr.ConvertParse | CIDR.py:43-45 | for four canonical octets in 0..255, `convert(parse(s)) == s` |
| Cidr.Clamp | CIDR.py:33-36 | the number of loop iterations that add a 1 bit is at most 32, and equals the bit length when that lies in 0..32 |
| Cidr.BuildMask | CIDR.py:31-36 | the shift-accumulate loop yields the top `min(max(b, 0), 32)` bits set in a 32-bit word |
| Cidr.PrefixMaskBits | CIDR.py:33-41 | a prefix mask is a 32-bit word with exactly `c` one bits; `/0` is 0 and `/32` is `thirtytwo`, and only those |
| Cidr.NetmaskRoundTrip | CIDR.py:37-41 | the netmask `__repr__` prints for `/c`, given back as a dotted netmask, yields the same mask and bit length `c` |
| Cidr.PrefixMask | CIDR.py:32-36 | the mask the loop builds for a clamped bit length is a 32-bit word |
| Cidr.NetworkOf | CIDR.py:49 | `ip & mask` is a 32-bit word with none of the host bits `~mask` set |
| Cidr.BroadcastOf | CIDR.py:72 | Python's `ip \| ~mask` is negative and at least `-2**32` |
| Cidr.FirstHostOf | CIDR.py:47 | `(ip & mask) + 1` lies in 1..2**32 |
| Cidr.LastHostOf | CIDR.py:48 | `(ip \| ~mask) - 1` is, mod 2**32, the 32-bit `ip \| (~mask & thirtytwo)` less one |
| Cidr.AvailableOf | CIDR.py:73 | `(~mask & thirtytwo) - 1` is `thirtytwo - 1 - (mask mod 2**32)`, between -1 and `thirtytwo - 1` |
| Cidr.PrefixBlock | CIDR.py:71-72 | for a prefix mask: network is `ip` rounded down to the block size, broadcast (mod 2**32) is the block's last word, and `network <= ip <= broadcast` |
| Cidr.PrefixNetwork | CIDR.py:71 | the network of a `/c` prefix clears the low `32 - c` bits of `ip` |
| Cidr.PrefixBroadcast | CIDR.py:72 | the broadcast of a `/c` prefix, mod 2**32, sets the low `32 - c` bits of `ip` |
| Cidr.BroadcastLow | CIDR.py:72 | Python's negative `ip \| ~mask`, reduced mod 2**32, is the 32-bit `ip \| (~mask & thirtytwo)` |
| Cidr.PrefixHostBits | CIDR.py:72 | the 32-bit `ip \| ~mask` of a `/c` prefix is `ip` with its low `32 - c` bits set |
| Cidr.OrHostBits | CIDR.py:48 | or-ing `2**k - 1` into a word sets its low `k` bits |
| Cidr.PrefixComplement | CIDR.py:73 | the host bits `~mask & thirtytwo` of a `/c` prefix are the low `32 - c` bits |
| Cidr.AvailableCountsHostRange | CIDR.py:73 | the available count is `2**(32 - c) - 2`, which is the length of the range from first host to last host |
| Cidr.SingleAddress | CIDR.py:73 | a `/32` has network and broadcast equal to `ip`, and its available count is -1 |
| Cidr.Halves | CIDR.py:25-29 | without `/` the whole text is the address and there is no bit length; otherwise address, `/` and rest rebuild the text, and the address has no `/` |
| Cidr.FirstSlashSplits | CIDR.py:26 | only the first `/` splits; the bit-length text keeps any later `/` |
| Cidr.WordShift | CIDR.py:48 | proof helper: subtracting 2**32 leaves the value mod 2**32 unchanged |
| Cidr.ReadMask | CIDR.py:25-41 | an integer bit length gives the prefix mask of its clamped value; other text after `/` is a dotted netmask whose bit length is its popcount; no `/` gives 32 and `thirtytwo` |
| Cidr.Addresses | CIDR.py:47-49 | subnet, first and last are what `convert` writes for the network, the first host and the last host; each is a dotted quad that reads back as its value mod 2**32: the network itself, the first host wrapping to 0 after the last block, and the last host one below the 32-bit `ip \| ~mask`, wrapping at 0 |
| Cidr.CIDR.constructor | CIDR.py:24-50 | the fields `ip`, `bitlength`, `mask`, `subnet`, `first` and `last` are as `__init__` computes them, with `ip` and `mask` 32-bit words; `subnet`, `first` and `last` read back as the network, the first host and the last host mod 2**32 |
| Cidr.CIDR.Netmask | CIDR.py:70 | the netmask line is a dotted quad that reads back as the mask mod 2**32 |
| Cidr.CIDR.BroadcastAddress | CIDR.py:72 | the broadcast line is the dotted quad of the 32-bit `ip \| ~mask` |
| Cidr.CIDR.AvailableAddresses | CIDR.py:73 | the available-address count is `thirtytwo - mask - 1` |
| CacheModel.Environment.Put | xontrib/shared_cache.py:58-61 | `None` for a set variable deletes it; anything else is stored |
| CacheModel.Lookup | xontrib/shared_cache.py:34 | `env.get(name, None)` is None for an unset name, and a value it returns is the stored one |
| CacheModel.Read | xontrib/shared_cache.py:50-56 | the file yields a dictionary exactly when it is present and readable, and then that dictionary |
| CacheModel.Stat | xontrib/shared_cache.py:67-71 | `os.stat` raises exactly when the file is missing, and otherwise gives its modification time |
| CacheModel.IsStale | xontrib/shared_cache.py:67 | the file is stale exactly when it exists and its modification time is strictly after the timestamp |
| CacheModel.Tracking | xontrib/shared_cache.py:39-40 | the refreshed dictionary has exactly the tracked names as keys |
| CacheModel.ApplyEntry | xontrib/shared_cache.py:58-61 | after one entry is applied, its name reads as its value through `env.get`, and no name other than it becomes bound |
| CacheModel.Applied | xontrib/shared_cache.py:57-61 | a load binds no name that is neither set in the environment nor in the file |
| CacheModel.ApplyEntryLookup | shared_cache.py:45-48 | after one entry is applied, its name reads as its value through `env.get`; it is unbound only when a set variable was deleted; other variables are unchanged |
| CacheModel.AppliedLookup | xontrib/shared_cache.py:57-61 | after a load, each name in the file reads back as the file's value and every other variable is untouched |
| CacheModel.ApplyOneMore | xontrib/shared_cache.py:57-61 | applying one more entry of the file extends the partial load by that entry |
| CacheModel.ApplyOneMoreKeys | xontrib/shared_cache.py:57-61 | proof helper: one more applied entry binds the same names as the partial load with that entry applied |
| CacheModel.ApplyStep | shared_cache.py:43-48 | the load loop's step, visiting names in any order, keeps its invariant |
| CacheModel.ApplyNone | shared_cache.py:43 | proof helper: before the load loop visits any name, the environment is as it was |
| CacheModel.ApplyDone | xontrib/shared_cache.py:57 | proof helper: once every name is visited, the environment is that of the whole file applied |
| CacheModel.MergeStep | shared_cache.py:44 | storing one more entry of the file extends the merged part by it |
| CacheModel.MergeDone | shared_cache.py:43-44 | proof helper: once every name is visited, the tracked dictionary is the old one merged with the whole file |
| CacheModel.RestrictAll | shared_cache.py:43 | proof helper: the entries of the file for all its names are the whole file |
| CacheModel.RefreshNone | xontrib/shared_cache.py:39 | proof helper: before the refresh loop visits any name, the tracked dictionary is as it was |
| CacheModel.RefreshStep | xontrib/shared_cache.py:39-40 | refreshing one more tracked name extends the refreshed part by it |
| CacheModel.RefreshAll | shared_cache.py:30-31 | proof helper: after the refresh loop, the tracked names are unchanged and each holds `env.get(key, None)` |
| CacheModel.TrackStep | xontrib/shared_cache.py:33-34 | one more iteration of the `share_value` loop tracks one more listed name with its current value |
| CacheModel.ReloadSameLookups | xontrib/shared_cache.py:57-61 | loading the same file twice reads the same through `env.get` as loading it once |
| CacheModel.ReloadBindsNone | xontrib/shared_cache.py:58-61 | the environment itself differs: a `None` entry deletes a set variable on the first load and binds it to `None` on the second |
| CacheModel.SaveLoadRoundTrip | shared_cache.py:35 | after a save and a load in another shell, every tracked name reads as in the saving shell; other names are untouched |
| CacheModel.LoadOwnSave | xontrib/shared_cache.py:37-61 | loading the file a shell has just saved changes nothing it reads through `env.get` |
| CacheModel.ShareTwiceSameDocument | xontrib/shared_cache.py:28-35 | sharing the same names twice with an unchanged environment writes the same file |
| CacheModel.OwnWriteNotStale | xontrib/shared_cache.py:67 | the staleness test is strict: a file written at the timestamp is not stale, a later or unreadable later one is, a missing one never is |
| PickleCache.SharedCache.constructor | xontrib/shared_cache.py:21-26 | the lock file is the cache file plus `.lock`; when the file is present, its dictionary is tracked and applied and the timestamp is `now`; otherwise nothing is tracked, the environment is unchanged and the timestamp is 0 |
| PickleCache.SharedCache.ShareValue | xontrib/shared_cache.py:28-35 | every listed and every already tracked name is tracked with `env.get(name, None)`, no key is removed, and the file holds exactly that |
| PickleCache.SharedCache.SaveSharedValues | xontrib/shared_cache.py:37-45 | each tracked name holds its current value; the file is overwritten with exactly the tracked dictionary; the timestamp is `now` |
| PickleCache.SharedCache.LoadSharedValues | xontrib/shared_cache.py:47-62 | a readable file replaces the tracked dictionary, is applied to the environment and moves the timestamp to `now`; a missing or unreadable file changes nothing |
| PickleCache.SharedCache.PushValues | xontrib/shared_cache.py:57-61 | the environment ends as the loaded dictionary applied to it, entry by entry |
| PickleCache.SharedCache.Call | xontrib/shared_cache.py:64-73 | reloads exactly when the file exists with a modification time strictly after the timestamp and is readable; otherwise nothing changes |
| PickleCache.ShareThenOpen | xontrib/shared_cache.py:37-51 | a cache opened after another shell shared its names tracks exactly the sharer's dictionary, and each name reads the same in both environments |
| PickleCache.PickUpOtherWrite | xontrib/shared_cache.py:51 | a newer write by another shell replaces the tracked dictionary entirely |
| PickleCache.SaveThenCall | xontrib/shared_cache.py:45 | right after a save, `__call__` changes nothing |
| JsonCache.SharedCache.constructor | shared_cache.py:14-19 | the lock file is the cache file plus `.lock`; when the file is present, its dictionary is tracked and applied and the timestamp is `now`; otherwise nothing is tracked and the timestamp is 0 |
| JsonCache.SharedCache.ShareValue | shared_cache.py:21-26 | only new names are inserted, but after the save every tracked name holds `env.get(name, None)` and the file holds exactly that |
| JsonCache.SharedCache.SaveSharedValues | shared_cache.py:28-37 | each tracked name holds its current value; the file is overwritten with exactly the tracked dictionary; the timestamp is `now` |
| JsonCache.SharedCache.LoadSharedValues | shared_cache.py:39-54 | a readable file is merged into the tracked dictionary and applied to the environment, and the timestamp moves to `now`; a missing or unreadable file changes nothing |
| JsonCache.SharedCache.MergeValues | shared_cache.py:43-48 | file keys overwrite or add tracked entries, tracked keys the file lacks keep their values, the environment ends as the file applied to it, and the timestamp is unchanged |
| JsonCache.SharedCache.Call | shared_cache.py:56-70 | reloads exactly when the file exists with a modification time strictly after the timestamp and is readable; the trailing comparison loop changes nothing |
| JsonCache.ShareThenOpen | shared_cache.py:35-44 | a cache opened after another shell shared its names tracks the sharer's dictionary, `None` kept apart from `""`, and each name reads the same in both environments |
| JsonCache.PickUpOtherWrite | shared_cache.py:43-44 | a newer write by another shell is merged: its keys are added or overwritten, the others keep their values |
| JsonCache.SaveThenCall | shared_cache.py:37 | right after a save, `__call__` changes nothing |

## How the two variants differ

- A load in `shared_cache.py` merges the file into `shared` (lines 43-44).
  A load in `xontrib/shared_cache.py` replaces `shared` with the file's
  dictionary (line 51). `JsonCache` merges and `PickleCache` replaces.
- `share_value` in `shared_cache.py` stores only names not yet tracked
  (lines 24-25). The one in `xontrib/shared_cache.py` stores every listed
  name (line 34). The save that follows refreshes every tracked name, so
  both end in the same state (`ShareValue` in each module).

## Left out

- The file lock (`simpleflock.SimpleFlock`) and races between shells. Each call is atomic against the abstract file.
- The pickle and JSON byte formats, `open` and `os.stat`. The file is an abstract state with an integer modification time.
- A file that opens but fails to parse is `Corrupt`. It has a modification time, so `__call__` attempts a load that then fails and changes nothing.
- A pickle that parses to something other than a dictionary is also `Corrupt`, which the model treats as changing nothing. In xontrib/shared_cache.py that object replaces `shared` (line 51), and then `.items()` raises outside the `try` (line 57). From `__call__` the error is printed (lines 72-73); from `__init__` it propagates. The model does not capture this.
- A save whose `open` for writing fails (xontrib/shared_cache.py:43, shared_cache.py:34). The source raises after the refresh loop (lines 39-40 and 30-31) has already updated `shared`, and leaves the file and the timestamp as they were. The model's save always succeeds.
- `time.time()` returns a float. Here it is the integer parameter `now`, and a modification time is an integer.
- The default file name, built from `$TMPDIR`. The file is a constructor parameter.
- Printed messages (xontrib/shared_cache.py:55, 73; shared_cache.py:52, 65).
- Any other exception `__call__` catches, beyond the file being missing or unreadable.
- The xonsh event hooks and the `share` alias (xontrib/shared_cache.py:76-93; shared_cache.py:73-82).
- Values are text or `None`. Objects of other types in the file or the environment are not modelled.
- The loops over dictionaries visit the keys in any order. Python visits them in insertion order. The loop bodies touch one key each, so the end state is the same.
- A load failing part-way through applying entries: the model applies a parsed document entirely. The JSON variant parses the whole file before its loop, and the pickle variant loads it in one call.
- xontrib/CIDR.py, a wrapper over Python's `ipaddress` module. It is not part of this model.
- xontrib/aws_role.py (AWS SDK calls and prompt glue) and setup.py (packaging metadata) are not part of this model.
- `__repr__`'s text layout: only the numbers it prints are modelled (`CIDR.Netmask`, `CIDR.BroadcastAddress`, `CIDR.AvailableAddresses`, the `subnet`, `first` and `last` fields).
- Cidr.CIDR.constructor: requires well-formed input. The address must have at least four dot-separated fields, the first four integers in 0..255. The text after `/` must be an integer or such a dotted quad. This excludes two kinds of input. The source raises on fewer than four fields or on a field that is no integer. It also computes a value for fields outside 0..255, which the model does not cover: their shifted fields overlap, so `1.2.3.300` gives 0x0102032C (1.2.3.44), and a negative first field gives a negative `ip`.
- Cidr.ReadMask: the same precondition as the constructor. A dotted netmask must have octets in 0..255; the source also ors together out-of-range fields, and the model does not cover that.
- Text.ParseInt: does not accept the surrounding whitespace, `_` digit separators or non-ASCII digits that Python's `int()` accepts. Such text is read as no integer.
