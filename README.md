# ListExtension — a verified model

This project models the list extension methods of MuffinDev.Core (`ListExtension`), the
runtime helpers of a Unity game-development toolkit. The methods work on an `IList<T>` and
read it or change it in place:

- `AddOnce` appends an item unless the list already contains it, and reports whether it did.
- `IsInRange` tells whether an index is "in the list's range". As written, it refuses index 0.
- `Shuffle` is an in-place Fisher–Yates shuffle. Each pass draws `k` with
  `Random.Range(0, n + 1)` and swaps positions `k` and `n`.
- `ShuffleCrypto` is the same shuffle fed by a cryptographic byte source. Each pass draws single
  bytes until one is below `n * (Byte.MaxValue / n)`, takes `k = byte % n`, then swaps `k` with
  position `n - 1`.

Everything lives in one module, `ListExtension` (`list_extension.dfy`):

- The list is a `List<T>` object whose `items` sequence the methods reassign.
- `IsInRange` is a pure function on the sequence.
- The two shuffles are methods with `while` loops, as in the C# code. Their postconditions tie
  the new list to two specification functions, `ShuffleFrom` and `CryptoFrom`, which describe
  the loops pass by pass. The properties are proved about those functions.
- The random sources become inputs. `Shuffle` takes the answers `Random.Range` would give, as a
  sequence `draws`; the precondition `DrawsFit` says each answer lies in the range that
  `Random.Range(0, n + 1)` guarantees. `ShuffleCrypto` takes the bytes the provider would
  write, as a finite sequence. If that sequence runs out while the loop still waits for an
  acceptable byte, the result is `Starved`; otherwise it is `Finished`.

What is proved:

- `AddOnce` appends exactly when the item was absent. A second call with the same item
  returns false and changes nothing.
- Both shuffles return a permutation of their input (same length, same multiset), whatever the
  random source answers.
- Positions at or above the current `n` are never touched again.
- On a list without repeated elements, different draw sequences give different arrangements.
- A finished `ShuffleCrypto` is exactly `Shuffle` run with the draws `byte % n` of the accepted
  bytes.
- For each `1 <= n <= 255`, the accept range holds exactly `255 / n` bytes for each residue
  `k < n`, so an accepted uniform byte picks every position with the same probability.
- Lists of at most 255 elements can finish: a stream that holds `Count - 1` bytes below 128,
  anywhere among other bytes, suffices.
- A list of more than 255 elements never finishes: `Byte.MaxValue / n` is 0, so no byte is ever
  accepted, and the C# loop spins for ever on its first pass.

## Model

| member | source | states |
|---|---|---|
| `ListExtension.List.AddOnce` | Runtime/Extensions/ListExtension.cs:21-28 | returns true exactly when the item was not in the list. In that case the list becomes the old list with the item appended; otherwise it is unchanged. Afterwards the item is in the list. |
| `ListExtension.AddOnceTwice` | Runtime/Extensions/ListExtension.cs:21-27 | a second `AddOnce` with the same item returns false and leaves the list as the first call left it (idempotence) |
| `ListExtension.IsInRange` | Runtime/Extensions/ListExtension.cs:33-36 | true exactly for the valid positions of the list other than 0 |
| `ListExtension.IndexInRange` | Runtime/Extensions/ListExtension.cs:30-36 | the check the doc comment describes ("in this list's range"). It agrees with `IsInRange` everywhere except index 0 of a non-empty list, which it admits. |
| `ListExtension.IsInRangeRefusesFirstIndex` | Runtime/Extensions/ListExtension.cs:35 | on every non-empty list, `IsInRange` refuses index 0 while `IndexInRange` admits it |
| `ListExtension.Swap` | Runtime/Extensions/ListExtension.cs:86-88 | the three-assignment swap exchanges the two positions, leaves every other position alone and keeps the multiset of elements |
| `ListExtension.ShuffleFrom` | Runtime/Extensions/ListExtension.cs:79-90 | Shuffle's loop over the first `n` positions keeps the length and the multiset of elements (a permutation), for any answers in range. Positions at or above `n` are untouched. |
| `ListExtension.ShufflePlacesFirstDraw` | Runtime/Extensions/ListExtension.cs:84-88 | the element at the first drawn index ends up in the last unshuffled position, and stays there |
| `ListExtension.ShuffleInjective` | Runtime/Extensions/ListExtension.cs:79-90 | on a list without repeated elements, two draw sequences that give the same arrangement are equal |
| `ListExtension.List.Shuffle` | Runtime/Extensions/ListExtension.cs:79-90 | the list after the in-place loop is `ShuffleFrom` of the old list and the draws. It is a permutation of the old list, and a list of at most one element is unchanged. |
| `ListExtension.Accepts` | Runtime/Extensions/ListExtension.cs:105 | the accept test `box[0] < n * (Byte.MaxValue / n)`; the threshold never exceeds 255, so the byte 255 is never accepted |
| `ListExtension.CryptoFrom` | Runtime/Extensions/ListExtension.cs:97-112 | ShuffleCrypto's loop keeps the length and the multiset of elements, whether it finishes or runs out of bytes. Positions at or above `n` are untouched. |
| `ListExtension.CryptoIsFisherYates` | Runtime/Extensions/ListExtension.cs:101-111 | when ShuffleCrypto finishes, each accepted byte's `b % n` lies in `[0, n)`. The positions form a valid draw sequence, and the result equals `ShuffleFrom` run with them. |
| `ListExtension.NoByteAcceptedAboveByteMax` | Runtime/Extensions/ListExtension.cs:105 | for `n > 255` the accept test fails for every byte |
| `ListExtension.CryptoStarvesAboveByteMax` | Runtime/Extensions/ListExtension.cs:100-105 | a list longer than 255 elements never finishes, for any byte stream, and is left unchanged |
| `ListExtension.LowBytesAccepted` | Runtime/Extensions/ListExtension.cs:105 | for `1 <= n <= 255` every byte below 128 passes the accept test |
| `ListExtension.CryptoFinishesOnLowBytes` | Runtime/Extensions/ListExtension.cs:101-111 | a list of at most 255 elements finishes on any stream that holds at least `Count - 1` bytes below 128, whatever other bytes surround them |
| `ListExtension.AcceptedCount` | Runtime/Extensions/ListExtension.cs:104-106 | for `1 <= n <= 255`, each `k < n` is picked by exactly `255 / n` accepted bytes |
| `ListExtension.List.ShuffleCrypto` | Runtime/Extensions/ListExtension.cs:97-112 | the list after the in-place loop is `CryptoFrom` of the old list and the bytes, and `finished` says whether the loop ended. The list is a permutation of the old one. When finished, it equals `Shuffle` with the accepted draws. A list of more than 255 elements never finishes and is left unchanged. |

## Findings

| source | as written | input that shows it | evidently intended | confidence | as-written member | corrected member |
|---|---|---|---|---|---|---|
| Runtime/Extensions/ListExtension.cs:35 | `_Index > 0 && _Index < _List.Count` refuses index 0 | any non-empty list with index 0 (`IsInRangeRefusesFirstIndex`) | `_Index >= 0 && _Index < _List.Count`, as the comment "in this list's range" says | high (not executed) | `ListExtension.IsInRange` | `ListExtension.IndexInRange` |

`IsInRange` is modelled as written. `IndexInRange` is the check the comment promises, and the
swap used by both shuffles requires it of its indices.

## Left out

- `Join` (Runtime/Extensions/ListExtension.cs:43-46) calls `string.Join`, which depends on each element's `ToString`. That is code outside this model.
- Both `Paginate` overloads (Runtime/Extensions/ListExtension.cs:56-73) only forward to a `Pagination` class. `Pagination` is not part of this model.
- The Blackboard editor classes (Editor/Utilities/Blackboard/) are Unity Inspector drawing code. They pass values through to Unity's serialization API.
- `UnityEngine.Random.Range` and `RNGCryptoServiceProvider.GetBytes` are replaced by caller-supplied sequences of answers. No statement about their randomness is made beyond the counting fact `AcceptedCount`.
- ListExtension.List.Shuffle: the draws must be exactly `Count - 1` values, each in the range `Random.Range` guarantees on that pass. The model says nothing about answers outside that range.
- ListExtension.List.ShuffleCrypto: the endless provider is replaced by a finite byte stream, so running out of bytes (`Starved`) stands for the C# loop still waiting. The non-termination above 255 elements is stated as "never finishes on any stream" rather than as divergence.
- ListExtension.ShuffleInjective: there is no proof that every permutation is reachable. Injectivity together with the `n·(n−1)·…·2 = n!` possible draw sequences implies it, but the count of permutations is not formalised, and uniformity of the output is not stated as a probability.
- ListExtension.List.AddOnce, ListExtension.List.Shuffle and ListExtension.List.ShuffleCrypto are modelled for a resizable, writable list only. Any other `IList<T>` is out of scope. On a fixed-size array, `Add` (Runtime/Extensions/ListExtension.cs:26) throws `NotSupportedException`. On a read-only list, the indexer writes (lines 87-88 and 109-110) throw. Neither exception is modelled.
- Element equality in `Contains` (line 23) uses `EqualityComparer<T>.Default`, i.e. the type's own `Equals`. The model abstracts it as Dafny's `==`.
- C# `int` overflow is not modelled. No expression in these methods can exceed 32 bits: `n * (255 / n)` is at most 255.
