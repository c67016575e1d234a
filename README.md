# Banker's algorithm: need derivation and safety check

This project models the deadlock-avoidance core of `bankers.cpp`, the class
`BankersAlgorithm`, and proves properties of that model. The class holds a
system of `n` processes and `m` resource types. It stores the `available`
vector and the `maxNeed` and `allocation` matrices. It derives the `need`
matrix from them. It provides the safety check `isSafe`. The check simulates
processes finishing one after another. It reports whether every process can
finish and in which order.

The code is split into three modules:

- `Safety` (safety.dfy) holds the mathematics of the check as values. A
  `Snapshot` bundles `available`, `need` and `allocation`. `WorkAfter(st, s)`
  is the work vector left once the processes of `s` have finished and given
  their allocation back. `IsSafeOrder` says each process of `s` had its whole
  need met at its turn. `SafeState` says some order of all processes is a safe
  order. `Stuck` says no remaining process fits the work vector. The main
  theorem, `StuckIsUnsafe`, says that with no negative allocation a stuck scan
  proves that no safe order exists.
- `Bankers` (bankers.dfy) holds the class. Its fields are the source's. The
  vectors are `seq` fields that the methods reassign. The constructor sizes
  `need` to `n` x `m` and calls `CalculateNeed`, which overwrites it cell by
  cell in two nested loops. `SafetyCheck` is the `isSafe` loop: a `while` over
  passes, a `for` over processes, the `continue` test, the `for` with `break`
  that checks the need row, and the `for` that adds the allocation back into
  `work`.
- `Scenario` (scenario.dfy) applies both versions of the check to one small state.

The test at bankers.cpp:43 is inverted (see Findings). The method
`SafetyCheck(skipWhen)` therefore writes that test as `finish[p] == skipWhen`.
With `skipWhen == false` it is the source as written (`!finish[p]`). With
`skipWhen == true` it is the evident intent: skip the processes that have
already finished. Both versions share one loop body. `IsSafeAsWritten` and
`IsSafe` are the two entry points. `isSafe` does not modify the object, and
none of these methods has a `modifies` clause, so Dafny's framing proves that
`available`, `maxNeed`, `allocation` and `need` are left unchanged. The scratch
vectors `work` and `finish` are locals.

The comments at bankers.cpp:31, 39 and 44 describe a check that skips the
processes already finished. The model keeps the code's guard
(`IsSafeAsWritten`) and adds the corrected one beside it (`IsSafe`).

## Model

| member | source | states |
|---|---|---|
| `Bankers.BankersAlgorithm.constructor` | bankers.cpp:17-21 | stores `n`, `m`, `available`, `maxNeed`, `allocation` unchanged; afterwards `need` has `n` rows of `m` entries and `need[i][j] == maxNeed[i][j] - allocation[i][j]` for every `i < n`, `j < m` |
| `Bankers.BankersAlgorithm.CalculateNeed` | bankers.cpp:23-29 | changes only the `need` field; afterwards every cell of the `n` x `m` need matrix equals `maxNeed - allocation` and the shapes are kept |
| `Bankers.BankersAlgorithm.SafetyCheck` | bankers.cpp:32-67 | the returned sequence holds process indices in `[0, n)` and is a safe order against the object's own `available`, `need` and `allocation`. With the source's test, the result is `true` exactly when `n == 0` and the sequence is empty. With the intended test, the sequence has no repeats; the result is `true` exactly when it holds `n` processes; on `false` no process outside it fits the work it leaves. |
| `Bankers.ScannedPush` | bankers.cpp:52-59 | appending a process that passed the need test, with its allocation added to `work` and its `finish` flag set, keeps the loop invariant: `finish[q]` is true exactly for the `q` in the sequence, `work == available +` the allocation rows of the sequence, the sequence is a safe order (and, under the intended test, has no repeats and at most `n` entries) |
| `Bankers.BankersAlgorithm.IsSafeAsWritten` | bankers.cpp:32-67 | the check as written returns `true` exactly when `n == 0`, and always leaves `safeSequence` empty: with `n > 0` every state is reported unsafe |
| `Bankers.BankersAlgorithm.IsSafe` | bankers.cpp:32-67 | with the intended test: the sequence has distinct indices in `[0, n)` and is a safe order; `true` exactly when it has `n` entries, and then it names every process (a permutation of `0..n-1`); `n == 0` gives `true` and an empty sequence; on `false` no unfinished process fits the final work vector; with no negative allocation, `true` exactly when the state is safe |
| `Safety.WorkAfterPush` | bankers.cpp:54-55 | unfolds the definition of the work vector for one more finished process: it grows by exactly that process's allocation row (a helper of `Bankers.ScannedPush`) |
| `Safety.SafeOrderPush` | bankers.cpp:44-58 | unfolds the definition of a safe order for one more process: a safe order extended by a process whose need row fits the current work vector is still a safe order (a helper of `Bankers.ScannedPush`) |
| `Safety.SafeOrderAt` | bankers.cpp:44-50 | in a safe order, every process passed the test `need[p][j] <= work[j]` for all `j` against the work vector as it stood at its turn |
| `Safety.WorkMonotone` | bankers.cpp:54-55 | with no negative allocation, a superset of finished processes leaves at least as much of every resource type |
| `Safety.DistinctInRangeBound` | bankers.cpp:39 | a sequence of distinct process indices has at most `n` entries, so `count` never exceeds `n` under the intended test |
| `Safety.DistinctInRangeCovers` | bankers.cpp:66 | `n` distinct indices in `[0, n)` name every process: a `true` result comes with a permutation of the processes |
| `Safety.SafeOrderWithinStuck` | bankers.cpp:62-64 | with no negative allocation, if a set of distinct finished processes is stuck, every process of any safe order without repeats already belongs to that set |
| `Safety.StuckIsUnsafe` | bankers.cpp:62-64 | with no negative allocation, a stuck set of fewer than `n` distinct processes proves that no safe order of all processes exists, so returning `false` is correct |
| `Safety.IndexOrderIsSafe` | bankers.cpp:44-58 | with no negative allocation, if every need row fits `available`, then finishing in index order is a safe order |
| `Safety.FitsAvailableIsSafe` | bankers.cpp:44-58 | with no negative allocation, a state in which every need row fits `available` is safe |
| `Scenario.IdleProcess` | bankers.cpp:34-43 | one process, one resource type, everything zero: the check as written returns `false`, the corrected check returns `true` with the order `[0]` |

## Left out

- Request admission (validate, tentatively grant, check, commit or roll back): the source stops at bankers.cpp:67 and holds no request routine, so there is nothing to model.
- Console I/O: the source includes the stream library but the modelled lines print and read nothing.
- C++ `int` overflow in `work[k] += allocation[p][k]` and in `maxNeed - allocation`: the model uses unbounded integers.
- Concurrency: the source is single-threaded and simulates over static snapshots.
- Bankers.BankersAlgorithm.constructor: requires `n, m >= 0` and vectors of exactly the declared shape (`|available| == m`, `n` rows of `m` entries). The source does not check these. Vectors that are too small make its indexing undefined behaviour, and a negative count makes `resize` fail. Larger vectors, whose extra entries the source ignores (it reads only `[0, n)` x `[0, m)` at bankers.cpp:24-26 and 33-55), are excluded too.
- Bankers.BankersAlgorithm.IsSafe: the contract does not fix which safe order is returned when several exist. The body keeps the source's tie-break (ascending index within a pass, with no restart of the pass).
- Bankers.BankersAlgorithm.IsSafe: "`true` exactly for the safe states" is stated only for non-negative allocations. With a negative allocation work can shrink, and the greedy scan may miss a safe order. The source does not validate entries.
- Bankers.BankersAlgorithm.CalculateNeed: does not check the sign of `need`, as in the source; a negative entry is stored as computed.

## Findings

| source | as written | input that shows it | evidently intended | confidence | as-written member | corrected member |
|---|---|---|---|---|---|---|
| bankers.cpp:43 | `if (!finish[p]) continue;` skips every unfinished process. All flags start `false` (line 34), so the first pass finds nothing and the check returns `false` with an empty sequence whenever `n > 0` | `n = 1`, `m = 1`, `available = [0]`, `maxNeed = [[0]]`, `allocation = [[0]]`: the one process needs nothing, yet the check reports the state unsafe | `if (finish[p]) continue;`: skip processes already finished, as the loop's comment at line 39 (loop until all processes are finished) and the update `finish[p] = true` at line 57 imply | high (not executed; proved about the model) | `Bankers.BankersAlgorithm.IsSafeAsWritten`, `Scenario.IdleProcess` | `Bankers.BankersAlgorithm.IsSafe` |
