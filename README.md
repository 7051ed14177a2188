# napa.js object lifetime bridge and string utilities, in Dafny

This project models two parts of napa.js's native layer.

- **`ObjectWrap`** (`object_wrap.dfy`, module `NapaModule`). This is the base class that ties a
  native C++ object to a V8 JavaScript object. Its design comes from Node's `node_object_wrap.h`.
  The V8 persistent handle is reduced to a few fields on the wrapper:
  - `persistent`: the host object the handle points at. `null` is the empty handle.
  - `weak`: the handle is weak, so the collector may call `WeakCallback`.
  - `destroyed`: the native object has been deleted.
  - `refs`: the reference count, `_refs` in the source.
  - `collected` on the host object: the collector has reclaimed it, so no handle to it may be used.

  A `HostObject` carries its internal field count and internal field 0. Internal field 0 is
  where `Wrap` stores the back-reference and where `Unwrap` reads it. The object invariant
  `Valid()` says three things. The count is never negative. An unattached or deleted wrapper has
  an empty, non-weak handle. An attached wrapper's host object is not collected and points back to it, and its handle
  is weak exactly when `refs == 0`. `Mode()` maps the state to the lifetime modes Unattached,
  Weak, Strong and Finalized. Every `assert` in the source is a `requires` on the method
  that holds it.
- **String utilities** (`string_utils.dfy`, module `StringUtils`). These are replace-all, split on
  delimiter characters, whitespace trim, ASCII case mapping and a case-insensitive comparison. A
  `std::string` is a `seq<char>`. Each loop in the source is a `method` with loop invariants,
  proved against a specification function. The specification's meaning is proved as lemmas.

## Model

| member | source | states |
|---|---|---|
| `NapaModule.ObjectWrap.constructor` | inc/napa/module/object-wrap.h:17-19 | A new wrapper has `refs == 0` and an empty handle. It is Unattached and satisfies the invariant. |
| `NapaModule.ObjectWrap.Mode` | inc/napa/module/object-wrap.h:98-110 | The state maps to exactly one lifetime mode. Finalized means deleted. Unattached means an empty handle. Weak and Strong are an attached handle with or without the weak flag. |
| `NapaModule.ObjectWrap.Destroy` | inc/napa/module/object-wrap.h:21-29 | An empty handle is left alone. An attached handle may only be torn down while the collector reports it near death, which it does only for a weak handle whose host object it reclaims. So an attached wrapper is deleted only with `refs == 0`, never while pinned. The handle is then cleared and reset. Afterwards the object is deleted, the handle is empty and the count is unchanged. |
| `NapaModule.ObjectWrap.Unwrap` | inc/napa/module/object-wrap.h:31-41 | Given a non-empty handle to a host object that has not been collected and has at least one internal field, the result is the wrapper stored in internal field 0. |
| `NapaModule.ObjectWrap.Handle` | inc/napa/module/object-wrap.h:43-49 | The result is the handle's host object. The method changes no state, so it can be called any number of times. |
| `NapaModule.ObjectWrap.Wrap` | inc/napa/module/object-wrap.h:57-63 | It requires an empty handle and a live host object with an internal field. Afterwards `Unwrap(handle)` is this wrapper, the handle is attached and weak, `refs` is still 0 and the invariant holds. |
| `NapaModule.ObjectWrap.MakeWeak` | inc/napa/module/object-wrap.h:65-68 | The handle becomes weak. The target, the count and the deletion flag are unchanged. |
| `NapaModule.ObjectWrap.Ref` | inc/napa/module/object-wrap.h:74-78 | It requires an attached handle. `refs` goes up by exactly one and the handle is strong, whether or not it already was. The invariant is kept. |
| `NapaModule.ObjectWrap.Unref` | inc/napa/module/object-wrap.h:89-96 | It requires an attached, strong handle and `refs > 0`. `refs` goes down by one. The handle is weak afterwards exactly when the count reached 0. The invariant is kept. |
| `NapaModule.ObjectWrap.WeakCallback` | inc/napa/module/object-wrap.h:103-108 | It is enabled only on a weak handle with `refs == 0`. The host object is marked collected, the handle is reset and the object is deleted, so the mode is Finalized. Every wrapper operation requires `!destroyed` and `Unwrap` requires a host object that is not collected, so none of them is enabled afterwards and the callback runs at most once. |
| `NapaModule.WeakIffUnpinned` | inc/napa/module/object-wrap.h:89-105 | On an attached wrapper, the mode is Weak exactly when `refs == 0` and Strong exactly when `refs > 0`. So the count check in `WeakCallback` always holds when the collector fires. |
| `NapaModule.UnwrapOfHandle` | inc/napa/module/object-wrap.h:32-40 | `Unwrap` on an attached wrapper's own handle returns that wrapper. |
| `NapaModule.PinTwiceThenFinalize` | inc/napa/module/object-wrap.h:57-108 | Wrap, two `Ref`s, two `Unref`s and then `WeakCallback` are all legal in that order. The object ends Finalized with `refs == 0`. The host object is collected, so `Unwrap` on it is no longer enabled. |
| `StringUtils.Find` | src/utils/string.h:19 | A position returned by `find(match, pos)` is at or after `pos`, and the match occurs there. |
| `StringUtils.FindIsFirst` | src/utils/string.h:19 | `find` returns the first occurrence: the match does not occur between `pos` and the returned position. When `find` reports none, the match does not occur at or after `pos`. |
| `StringUtils.FindPastPrefix` | src/utils/string.h:19 | Searching `a + b` from position `\|a\|` gives the result of searching `b`, shifted by `\|a\|`. This is why the loop's resumed search never looks back into the replaced part. |
| `StringUtils.ReplaceAll` | src/utils/string.h:18-23 | The loop's result is `Replaced(str, match, replacement)`. When `match` does not occur, the string is unchanged. |
| `StringUtils.ReplaceStep` | src/utils/string.h:19-22 | One round splices the replacement over the match at `pos`. Everything up to the end of the inserted replacement is then final, and replacing in the rest completes `Replaced(str, ...)`. So the loop's invariant is kept with the search resuming at `pos + replacement.size()`. |
| `StringUtils.ReplacedFromMatch` | src/utils/string.h:19-21 | When the next match at or after `pos` is at `p`, replacing in the string from `pos` keeps the text before `p`, inserts the replacement, and goes on after the match. |
| `StringUtils.ReplaceEnd` | src/utils/string.h:19 | When `find` reports `npos`, the loop's string is the full replacement of the input. |
| `StringUtils.ReplacedJoinsPieces` | src/utils/string.h:18-23 | The result is the pieces between the leftmost non-overlapping matches, joined by the replacement. |
| `StringUtils.PiecesRejoin` | src/utils/string.h:18-23 | Joining those pieces with the match itself gives back the input. |
| `StringUtils.PiecesFreeOfMatch` | src/utils/string.h:18-23 | No piece contains an occurrence of the match. |
| `StringUtils.ReplacedBySelf` | src/utils/string.h:18-23 | Replacing a match by itself leaves every string unchanged. |
| `StringUtils.ReplacementNotRescanned` | src/utils/string.h:20-21 | Scanning resumes after the inserted replacement. A string that is exactly the match becomes exactly the replacement, even when the replacement contains the match. |
| `StringUtils.ReplaceAllCopy` | src/utils/string.h:26-30 | The copy holds what `ReplaceAll` would produce: the pieces between matches, joined by the replacement. |
| `StringUtils.Split` | src/utils/string.h:33-57 | The output list starts empty, and the nested loops produce `SplitPieces` of the range. Without `compress` there is one piece more than delimiter characters, and putting the consumed delimiters back reconstructs the range. With `compress` no piece is empty. No piece contains a delimiter. |
| `StringUtils.SplitAtDelimiter` | src/utils/string.h:45-49 | At a delimiter the open piece is emitted, unless it is empty and `compress` is set. The next piece starts empty. |
| `StringUtils.SplitAtOther` | src/utils/string.h:43-44 | Any other character extends the open piece. |
| `StringUtils.SplitFinish` | src/utils/string.h:54-56 | The last piece is emitted unless it is empty and `compress` is set. The result is then exactly `SplitPieces`. |
| `StringUtils.SplitPiecesMeaning` | src/utils/string.h:40-56 | Without `compress`, the piece count is the number of delimiter characters plus one, so an empty input gives `[""]`. Interleaving the pieces with the consumed delimiters gives the input. With `compress`, no piece is empty. No piece contains a delimiter. |
| `StringUtils.FieldsCount` | src/utils/string.h:43-56 | The uncompressed piece count is the number of delimiter characters plus one. |
| `StringUtils.FieldsFreeOfDelimiters` | src/utils/string.h:43-56 | No uncompressed piece contains a delimiter. |
| `StringUtils.FieldsRejoin` | src/utils/string.h:43-56 | Interleaving the uncompressed pieces with the consumed delimiters reconstructs the input. |
| `StringUtils.NonEmpty` | src/utils/string.h:46 | The compressed pieces are the uncompressed ones with the empty pieces removed. None of them is empty, and each is one of the uncompressed pieces. |
| `StringUtils.NonEmptyAppend` | src/utils/string.h:46-55 | Dropping empty pieces distributes over concatenation. So compressing piece by piece, as the loop does, equals compressing the whole list. |
| `StringUtils.SplitAnyOf` | src/utils/string.h:60-69 | The string-delimiter overload gives the same pieces as the `vector<char>` overload applied to the delimiter string's characters. |
| `StringUtils.SplitString` | src/utils/string.h:72-79 | The whole-string overload gives the same pieces as the range overload over the entire string. |
| `StringUtils.FindFirstNotSpace` | src/utils/string.h:84 | A position returned by `find_first_not_of(" \n\r\t")` is inside the string and holds a non-whitespace character. |
| `StringUtils.FirstNotSpaceSkipsSpace` | src/utils/string.h:84 | Everything before the position `find_first_not_of` returns is whitespace, and the whole string is whitespace when it reports none. |
| `StringUtils.FindLastNotSpace` | src/utils/string.h:87 | A position returned by `find_last_not_of(" \n\r\t")` holds a non-whitespace character. |
| `StringUtils.LastNotSpaceSkipsSpace` | src/utils/string.h:87 | Everything after the position `find_last_not_of` returns is whitespace, and the whole string is whitespace when it reports none. |
| `StringUtils.SizeIncrement` | src/utils/string.h:87 | `size_t` addition of 1 is addition modulo 2^64, so `npos + 1` is 0. |
| `StringUtils.Erase` | src/utils/string.h:84-87 | `erase(pos, n)` removes `min(n, size - pos)` characters at `pos` and keeps the rest in order. |
| `StringUtils.Trim` | src/utils/string.h:82-88 | The two in-place erasures produce `Trimmed(str)`. |
| `StringUtils.LeftTrimErases` | src/utils/string.h:84 | Erasing up to the first non-whitespace character removes exactly the leading whitespace. When `find` reports `npos`, the whole string is erased. |
| `StringUtils.RightTrimErases` | src/utils/string.h:87 | Erasing from one past the last non-whitespace character removes exactly the trailing whitespace. When `find` reports `npos`, `npos + 1` wraps to 0 and the whole string is erased. |
| `StringUtils.TrimmedIsCore` | src/utils/string.h:82-88 | The trimmed string is a contiguous part of the input. Everything dropped before and after it is whitespace, and its first and last characters are not whitespace. |
| `StringUtils.LeadingSpace` | src/utils/string.h:84 | Left trimming removes exactly the maximal leading whitespace run. |
| `StringUtils.TrailingSpaceStart` | src/utils/string.h:87 | Right trimming removes exactly the maximal trailing whitespace run. |
| `StringUtils.TrimmedIdempotent` | src/utils/string.h:82-88 | Trimming twice is the same as trimming once. |
| `StringUtils.TrimmedEmptyIffAllSpace` | src/utils/string.h:82-88 | The result is empty exactly when the input is all whitespace. |
| `StringUtils.TrimCopy` | src/utils/string.h:91-95 | The copy is the trimmed input. |
| `StringUtils.Lower` | src/utils/string.h:99 | `tolower` on ASCII: `A`-`Z` become `a`-`z`, and every other character is unchanged. |
| `StringUtils.Upper` | src/utils/string.h:111 | `toupper` on ASCII: `a`-`z` become `A`-`Z`, and every other character is unchanged. |
| `StringUtils.LowerString` | src/utils/string.h:98-100 | The length is preserved, and each character is lowered independently. |
| `StringUtils.UpperString` | src/utils/string.h:110-112 | The length is preserved, and each character is raised independently. |
| `StringUtils.ToLower` | src/utils/string.h:98-100 | The array in place becomes `LowerString` of its old contents. |
| `StringUtils.ToUpper` | src/utils/string.h:110-112 | The array in place becomes `UpperString` of its old contents. |
| `StringUtils.ToLowerCopy` | src/utils/string.h:103-107 | The copy has the input's length, and each character is the lowered input character. |
| `StringUtils.ToUpperCopy` | src/utils/string.h:115-119 | The copy has the input's length, and each character is the raised input character. |
| `StringUtils.LowerStringIdempotent` | src/utils/string.h:98-100 | Lowering leaves no upper-case letter, and lowering twice is lowering once. |
| `StringUtils.UpperStringIdempotent` | src/utils/string.h:110-112 | Raising leaves no lower-case letter, and raising twice is raising once. |
| `StringUtils.LowerIgnoresUpper` | src/utils/string.h:98-112 | Lowering after raising is the same as lowering. |
| `StringUtils.CaseInsensitiveCompare` | src/utils/string.h:122-135 | The index loop's early returns compute `Compared(left, right)`. The result is 0 exactly when `left` is, ignoring case, a prefix of `right`. |
| `StringUtils.ComparedZeroIffPrefix` | src/utils/string.h:122-135 | The comparison is 0 exactly when `left` is, ignoring case, a prefix of `right`. That includes a proper prefix, because only `left`'s length is scanned. |
| `StringUtils.ComparedAtFirstDifference` | src/utils/string.h:123-132 | At the first position where the lowered characters differ, the result is their difference. When `right` is, ignoring case, a proper prefix of `left`, the result is 1. |
| `StringUtils.CaseInsensitiveEquals` | src/utils/string.h:138-140 | As written, the result is true exactly when `left` is, ignoring case, a prefix of `right`. |
| `StringUtils.EqualsAcceptsLongerRight` | src/utils/string.h:122-140 | "a" and "aB" compare 0 although they differ ignoring case. |
| `StringUtils.ComparedIntendedZeroIffEqual` | src/utils/string.h:122-140 | The corrected comparison is 0 exactly for strings equal ignoring case. |
| `StringUtils.ComparedIntendedAntisymmetric` | src/utils/string.h:122-135 | Swapping the arguments of the corrected comparison flips its sign. |
| `StringUtils.CaseInsensitiveCompareIntended` | src/utils/string.h:122-135 | The corrected loop, which returns -1 when `left` runs out first, computes `ComparedIntended`. |
| `StringUtils.CaseInsensitiveEqualsIntended` | src/utils/string.h:138-140 | The corrected equality is true exactly for strings equal ignoring case. |

## Left out

- The V8 API is abstracted to the fields above. That covers `Isolate::GetCurrent`, the representation of `Local` and `Persistent`, `MarkIndependent`, and `SetAlignedPointerInInternalField`. Only internal field 0 of a host object is modelled.
- `NapaModule.ObjectWrap.Handle`: the two `handle()` overloads are one method. The isolate argument is dropped, because there is no isolate in the model. `persistent()` is the `persistent` field itself.
- `NapaModule.ObjectWrap.Destroy`: `IsNearDeath` is collector-internal state, so it is the parameter `nearDeath`. The model requires it, and a weak handle, for an attached wrapper, which is what the collector guarantees. Freeing the memory (`delete`) is the `destroyed` flag. Reclaiming the host object is its `collected` flag.
- `NapaModule.ObjectWrap.WeakCallback`: when the collector fires is not modelled, nor is reachability. The callback is only an operation enabled on a weak handle. `requires weak` states the collector's promise.
- `NapaModule.ObjectWrap.Unwrap`: the multiple-inheritance address adjustment of the two `static_cast`s is C++ object layout. Unwrap is an identity lookup.
- `NapaModule.ObjectWrap.Ref`: `_refs` is a C++ `int`, but the model's count is unbounded. Overflow past `INT_MAX` is undefined behaviour in C++ and is not modelled.
- `NapaModule.ObjectWrap.Wrap`: the source does not check whether the host object was already wrapped by another wrapper. The model states the invariant only for the wrapper being attached.
- `StringUtils.ReplaceAll`: an empty `match` is excluded by `requires`. On an empty match the source loop never terminates. With an empty replacement it finds the match at the same position forever and changes nothing. With a non-empty replacement the string grows by one replacement per round until `replace` throws `length_error`; the model has no length bound and no exceptions.
- `StringUtils.Trim`: `requires |str| < NPOS` states that a `std::string` is always shorter than `npos`. `erase(0, npos)` relies on this to erase everything.
- In-place changes to a `std::string` that can change its length are not modelled as in-place updates. `ReplaceAll` and `Trim` take the string's value and return its new value, so aliasing of the reference is not modelled. `ToLower` and `ToUpper` keep the length and work in place on an `array<char>`.
- `Split` takes iterators in the source. Here they are indices `begin <= end` into the string. A `vector<char>` of delimiters and a delimiter string are both `seq<char>`.
- `StringUtils.Lower`: `std::tolower` and `std::toupper` depend on the locale and take the possibly signed `char`. The model maps only ASCII `A`-`Z` and `a`-`z`, and differences in `CaseInsensitiveCompare` use Dafny character codes.

## Findings

| source | as written | input that shows it | evidently intended | confidence | as-written member | corrected member |
|---|---|---|---|---|---|---|
| src/utils/string.h:122-140 | The loop scans only `left` and returns 0 when it runs out, even when `right` is longer. So `CaseInsensitiveEquals` is true whenever `left` is a case-insensitive prefix of `right`. | `CaseInsensitiveEquals("a", "aB")` is true | 0 only when both strings end together. A shorter `left` compares below `right`, so equality means equal ignoring case. | high; not executed | `StringUtils.EqualsAcceptsLongerRight` | `StringUtils.CaseInsensitiveEqualsIntended` |
