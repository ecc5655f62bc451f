# ConsoleApp core, modelled in Dafny

ConsoleApp is a C# collection of small programs. This project models its algorithmic core
and proves what each part promises:

- **The chess engine** (`ConsoleApp/Chess`). It covers:
  - piece codes, packed moves and their flags;
  - the 64-bit bitboard helpers and the precomputed attack tables;
  - the move generator and the attack map;
  - the board, which keeps one position four ways in step: a mailbox of piece codes, piece bitboards, colour bitboards and the occupied set;
  - making and taking back moves, the position key (Zobrist hashing), loading Forsyth–Edwards Notation and the Universal Chess Interface's move text.
- **Sorting and searching** (`ConsoleApp/Algorithm/Sorting`, `ConsoleApp/Algorithm/Searching`):
  - bubble, insertion, selection, quick, heap, merge, counting and radix sort;
  - linear, jump, Fibonacci, binary and ternary search.
- **Algorithms on C# integers and strings**: `Bitwise`, `Recursion`, the array helpers of `Arrays` and `OutCategory`. The `OutCategory` part covers number words, blood groups, the largest island, the Ulam sequence and the smallest multiple.
- **A\* path finding** on a character grid.
- **A packed RGB colour** type.
- **Three games**: tic-tac-toe packed into one `int`, 2048, and a sudoku grid with its single-candidate solver.

How the model is built:

- **Pure code** becomes functions over datatypes. Each function is compared with an independent description: a round trip, a reference definition, or a set of squares in board geometry.
- **Code that updates state in place** becomes classes and methods. Examples are the sorts on arrays, the board, the games, A\* and the table-filling constructor. Each method is proved against a specification function of the old state.
- **C# arithmetic** is written out. `int` and `uint` wrap, `ulong` is a number below 2^64, and `/` and `%` truncate toward zero. Out-of-range indexes, null dereferences and overflow checks become an `Outcome` with the exception's name wherever the source can raise them.

The colour convention is reconciled as follows:

- `Board.cs` indexes its colour arrays with `piece >> 3` and flips the side to move with `ColourToMove ^= 8`. It keeps 16 piece bitboards.
- `Piece.cs` declares `White = 8` and `Black = 16`, which does not fit that indexing.
- The model follows the engine: `White = 0` and `Black = 8`.
- Under this reconciliation, `Piece.IsWhite`'s mask test `(piece & White) == White` holds for every piece. `Piece.MaskTestLosesColour` and `UniversalChessInterface.BareSymbolUpperCase` state what the mask test then does. These are consequences of the reconciliation, not defects of the source.
- The castling move flags follow `MoveFlags.cs`, which is what `Move.cs` decodes.

## Model

| member | source | states |
|---|---|---|
| SortOrder.XorSwap | ConsoleApp/Algorithm/Sorting/BubbleSort.cs:18-20 | the three exclusive-or assignments exchange two different entries, and set the entry to 0 when both indexes are the same |
| SortOrder.Exchange | ConsoleApp/Algorithm/Sorting/SelectionSort.cs:24-29 | the exclusive-or exchange of two different entries swaps them and keeps the multiset of entries |
| SortOrder.Swap | ConsoleApp/Algorithm/Sorting/QuickSort.cs:33-35 | an exchange that swaps the two entries for every pair of indexes, equal ones included, and keeps the multiset |
| BubbleSort.Sort | ConsoleApp/Algorithm/Sorting/BubbleSort.cs:10-24 | the array ends sorted in the requested order and holds the same multiset of entries |
| BubbleSort.Pass | ConsoleApp/Algorithm/Sorting/BubbleSort.cs:14-22 | pass `i` keeps the settled prefix, leaves at `values[i]` an entry that may stand before every later one, and only permutes |
| BubbleSort.Exchanged | ConsoleApp/Algorithm/Sorting/BubbleSort.cs:16-21 | exchanging an out-of-order pair keeps the settled prefix and makes `values[i]` come before every entry up to `j` |
| InsertionSort.Sort | ConsoleApp/Algorithm/Sorting/InsertionSort.cs:10-25 | the array ends sorted in the requested order and holds the same multiset of entries |
| InsertionSort.Insert | ConsoleApp/Algorithm/Sorting/InsertionSort.cs:14-23 | pass `i` extends the sorted prefix to `values[..i + 1]` and only permutes |
| InsertionSort.PlacedSorted | ConsoleApp/Algorithm/Sorting/InsertionSort.cs:17-23 | where the shifting loop stops, writing the value there leaves the prefix sorted |
| InsertionSort.PlacedPermutes | ConsoleApp/Algorithm/Sorting/InsertionSort.cs:19-23 | shifting entries up and writing the value back keeps the multiset |
| SelectionSort.Sort | ConsoleApp/Algorithm/Sorting/SelectionSort.cs:10-31 | the array ends sorted in the requested order and holds the same multiset of entries |
| SelectionSort.Extreme | ConsoleApp/Algorithm/Sorting/SelectionSort.cs:14-22 | the inner loop finds an index of `values[i..]` whose entry may stand before every entry of that range |
| QuickSort.Sort | ConsoleApp/Algorithm/Sorting/QuickSort.cs:9-12 | the array ends sorted ascending and holds the same multiset of entries (with the exchange corrected, see Findings) |
| QuickSort.SortRange | ConsoleApp/Algorithm/Sorting/QuickSort.cs:14-22 | sorts `values[left..right]`, keeps the multiset and leaves every entry outside the range as it was |
| QuickSort.Combine | ConsoleApp/Algorithm/Sorting/QuickSort.cs:19-21 | sorting both sides of a partitioned pivot leaves the whole range sorted |
| QuickSort.Partition | ConsoleApp/Algorithm/Sorting/QuickSort.cs:24-43 | returns an index in the range with every entry before it at most the pivot and every entry after it above it, keeps the multiset and the outside |
| QuickSort.PartitionAsWritten | ConsoleApp/Algorithm/Sorting/QuickSort.cs:24-43 | with the exclusive-or exchange, an entry `values[left]` at most the pivot is exchanged with itself and becomes 0 |
| QuickSort.ZeroedEntry | ConsoleApp/Algorithm/Sorting/QuickSort.cs:30-35 | partitioning `[1, 2]` as written leaves a 0 in an array that held none |
| HeapSort.Sort | ConsoleApp/Algorithm/Sorting/HeapSort.cs:9-24 | the array ends sorted in the requested order and holds the same multiset of entries |
| HeapSort.Heapify | ConsoleApp/Algorithm/Sorting/HeapSort.cs:26-50 | given a heap below `root`, sifting makes a heap from `root`, keeps the multiset and touches only the subtree below `last` |
| HeapSort.Leaves | ConsoleApp/Algorithm/Sorting/HeapSort.cs:11 | the nodes from `n / 2` on have no children, so every array is a heap from there |
| HeapSort.RootLast | ConsoleApp/Algorithm/Sorting/HeapSort.cs:16-22 | the root of a heap may stand after every entry of the heap |
| HeapSort.ExtractStep | ConsoleApp/Algorithm/Sorting/HeapSort.cs:16-23 | one round of the second loop keeps a heap before `i` and sorted, later entries after it |
| HeapSort.Finished | ConsoleApp/Algorithm/Sorting/HeapSort.cs:16 | when the heap is down to one entry the whole array is sorted |
| MergeSort.Sort | ConsoleApp/Algorithm/Sorting/MergeSort.cs:9-12 | the array ends sorted in the requested order and holds the same multiset of entries |
| MergeSort.SortRange | ConsoleApp/Algorithm/Sorting/MergeSort.cs:14-25 | sorts `values[left..right]` around the source's middle `(left + right - 1) / 2`, keeps the multiset and the outside |
| MergeSort.Merge | ConsoleApp/Algorithm/Sorting/MergeSort.cs:27-76 | two sorted adjacent runs become one sorted run with the same entries; nothing outside changes |
| MergeSort.Copy | ConsoleApp/Algorithm/Sorting/MergeSort.cs:29-40 | the sub-array is a new array holding exactly `values[lo..hi-1]` |
| MergeSort.Interleave | ConsoleApp/Algorithm/Sorting/MergeSort.cs:42-75 | the three merge loops use up both runs, writing a sorted interleaving of them from `left` |
| MergeSort.MergeBoth | ConsoleApp/Algorithm/Sorting/MergeSort.cs:46-61 | the first merge loop stops when one run is used up, having written the smaller (or, descending, larger) head each time |
| MergeSort.TakeLows | ConsoleApp/Algorithm/Sorting/MergeSort.cs:63-68 | the second loop copies the rest of the lower run and keeps the interleaving sorted |
| MergeSort.TakeHighs | ConsoleApp/Algorithm/Sorting/MergeSort.cs:70-75 | the third loop copies the rest of the upper run and keeps the interleaving sorted |
| MergeSort.Merged | ConsoleApp/Algorithm/Sorting/MergeSort.cs:46-75 | once both runs are used up, the range is sorted and holds the entries of both runs |
| CountingSort.Sort | ConsoleApp/Algorithm/Sorting/CountingSort.cs:10-46 | throws (array left as it was) exactly for an empty array or an entry of at least 0x7FFFFFC7, for which `new int[maxValue + 1]` is past .NET's largest array length (for `0xFFFFFFFF` it wraps to an empty table that the tally overruns); otherwise sorted in the requested order with the same entries (descending start corrected, see Findings) |
| CountingSort.SortAsWritten | ConsoleApp/Algorithm/Sorting/CountingSort.cs:10-46 | as written it throws for an empty array or an entry of at least 0x7FFFFFC7 (array left as it was), and also when sorting descending unless the array's length equals its largest entry; when it does not throw, the array is sorted with the same entries |
| CountingSort.DescendingThrows | ConsoleApp/Algorithm/Sorting/CountingSort.cs:27-37 | sorting `[1, 1]` descending as written throws |
| CountingSort.FirstIndexAsWritten | ConsoleApp/Algorithm/Sorting/CountingSort.cs:27 | the descending start `maxValue - 1` is the last index exactly when the array's length equals its largest entry |
| CountingSort.Maximum | ConsoleApp/Algorithm/Sorting/CountingSort.cs:12-19 | the first loop returns the largest entry |
| CountingSort.Tally | ConsoleApp/Algorithm/Sorting/CountingSort.cs:21-25 | for a maximum whose `maxValue + 1` is an allocatable length (at most 0x7FFFFFC7), a fresh table of that length in which `count[v]` is the number of entries equal to `v`, for every `v` up to the maximum |
| CountingSort.Counted | ConsoleApp/Algorithm/Sorting/CountingSort.cs:12-25 | the counts, expanded value by value, are an ascending list with exactly the array's entries |
| CountingSort.ExpandOrdered | ConsoleApp/Algorithm/Sorting/CountingSort.cs:28-45 | writing out the counts value by value gives an ascending list whose entries are below the table's length |
| CountingSort.ExpandAll | ConsoleApp/Algorithm/Sorting/CountingSort.cs:22-45 | the expanded counts hold exactly the entries of the array, as many as it has |
| CountingSort.ReverseOrdered | ConsoleApp/Algorithm/Sorting/CountingSort.cs:27-37 | an ascending list read from its end is descending and holds the same entries |
| CountingSort.FillUp | ConsoleApp/Algorithm/Sorting/CountingSort.cs:27-45 | ascending, the write-back loop leaves the array equal to the expanded counts |
| CountingSort.FillDown | ConsoleApp/Algorithm/Sorting/CountingSort.cs:27-45 | descending from `start`, the write-back throws exactly when `start` is not the last index, and otherwise leaves the expanded counts reversed |
| RadixSort.SortAsWritten | ConsoleApp/Algorithm/Sorting/RadixSort.cs:10-38 | throws exactly on an empty array; otherwise the array is the result of the source's passes over the digits of its largest entry |
| RadixSort.Maximum | ConsoleApp/Algorithm/Sorting/RadixSort.cs:12-19 | the first loop returns the largest entry |
| RadixSort.Pass | ConsoleApp/Algorithm/Sorting/RadixSort.cs:23-36 | one pass over digit `k` leaves the array equal to the exchange sweep by that digit |
| RadixSort.Compare | ConsoleApp/Algorithm/Sorting/RadixSort.cs:25-35 | the inner loop for `i` leaves the array equal to the scan that exchanges out-of-order digits with `values[i]` |
| RadixSort.SweepOrders | ConsoleApp/Algorithm/Sorting/RadixSort.cs:23-36 | a pass orders the entries by the digit and keeps the multiset |
| RadixSort.RadixOrders | ConsoleApp/Algorithm/Sorting/RadixSort.cs:21-37 | the passes keep the multiset, and the array ends ordered by the last digit only |
| RadixSort.Unsorted | ConsoleApp/Algorithm/Sorting/RadixSort.cs:21-37 | as written, `[21, 22, 12]` ends as `[12, 22, 21]`, which is not sorted |
| RadixSort.Sort | ConsoleApp/Algorithm/Sorting/RadixSort.cs:10-38 | with a stable pass per digit, non-negative entries end sorted with the same multiset; an empty array throws |
| RadixSort.StablePass | ConsoleApp/Algorithm/Sorting/RadixSort.cs:23-36 | an array ordered by the part below `k` becomes ordered by the part below `10 * k`, with the same entries |
| LinearSearch.Search | ConsoleApp/Algorithm/Searching/LinearSearch.cs:11-22 | returns -1 exactly when the value is absent, and otherwise the first index holding it |
| JumpSearch.FloorSqrt | ConsoleApp/Algorithm/Searching/JumpSearch.cs:13 | the block length `(int)Math.Sqrt(n)` is the largest `r` with `r * r <= n` |
| JumpSearch.SqrtPositive | ConsoleApp/Algorithm/Searching/JumpSearch.cs:13-14 | the block length of a non-empty array is at least 1, so the jumps advance |
| JumpSearch.Search | ConsoleApp/Algorithm/Searching/JumpSearch.cs:11-37 | returns -1 or an index holding the value; in an ascending array a present value is always found |
| JumpSearch.ScanBlock | ConsoleApp/Algorithm/Searching/JumpSearch.cs:18-34 | the inner loops return -1 exactly when the value is absent from the block, and otherwise an index of the block holding it |
| JumpSearch.Gap | ConsoleApp/Algorithm/Searching/JumpSearch.cs:16-24 | in an ascending array, a present value below the jump point lies in the block scanned before it |
| JumpSearch.Tail | ConsoleApp/Algorithm/Searching/JumpSearch.cs:28-34 | in an ascending array, a present value not below any jump point lies in the last block |
| FibonacciSearch.Search | ConsoleApp/Algorithm/Searching/FibonacciSearch.cs:11-54 | throws `IndexOutOfRange` exactly on an empty array (`values[^1]`); otherwise returns -1 or an index holding the value, and in an ascending array finds every present value |
| FibonacciSearch.FibGrows | ConsoleApp/Algorithm/Searching/FibonacciSearch.cs:18-23 | the Fibonacci numbers are positive from the first on and above 1 exactly from the third on |
| FibonacciSearch.Grows | ConsoleApp/Algorithm/Searching/FibonacciSearch.cs:20-22 | a step of the first loop moves the three numbers one place up the Fibonacci sequence |
| FibonacciSearch.Shrinks | ConsoleApp/Algorithm/Searching/FibonacciSearch.cs:34-47 | each branch of the second loop moves the numbers one or two places down the sequence |
| FibonacciSearch.Ends | ConsoleApp/Algorithm/Searching/FibonacciSearch.cs:25-50 | when the second loop stops, `fi` is 1 and `fi1` is 0 unless the sequence is at its start |
| FibonacciSearch.Above | ConsoleApp/Algorithm/Searching/FibonacciSearch.cs:34-40 | a probe below the value moves the window of candidate indexes past the probe |
| FibonacciSearch.Below | ConsoleApp/Algorithm/Searching/FibonacciSearch.cs:42-47 | a probe above the value closes the window below the probe |
| FibonacciSearch.Closed | ConsoleApp/Algorithm/Searching/FibonacciSearch.cs:50-53 | when the loop ends without a match, a present value can only be the last entry, which the final test reads |
| BinarySearch.Search | ConsoleApp/Algorithm/Searching/BinarySearch.cs:11-14 | returns -1 or an index holding the value |
| BinarySearch.SearchRange | ConsoleApp/Algorithm/Searching/BinarySearch.cs:16-27 | returns -1 or an index of `left..right` holding the value |
| BinarySearch.RangeFinds | ConsoleApp/Algorithm/Searching/BinarySearch.cs:16-27 | in an ascending array, a value present in the range is found |
| BinarySearch.Finds | ConsoleApp/Algorithm/Searching/BinarySearch.cs:11-14 | in an ascending array, -1 is returned exactly when the value is absent |
| TernarySearch.Search | ConsoleApp/Algorithm/Searching/TernarySearch.cs:11-14 | returns -1 or an index holding the value |
| TernarySearch.Probes | ConsoleApp/Algorithm/Searching/TernarySearch.cs:21-22 | the two probe points lie in order inside the range |
| TernarySearch.SearchRange | ConsoleApp/Algorithm/Searching/TernarySearch.cs:16-37 | returns -1 or an index of `left..right` holding the value |
| TernarySearch.Probe | ConsoleApp/Algorithm/Searching/TernarySearch.cs:24-36 | the tests of the two probes and the three recursive calls return -1 or an index of the range holding the value |
| TernarySearch.RangeFinds | ConsoleApp/Algorithm/Searching/TernarySearch.cs:16-37 | in an ascending array, a value present in the range is found |
| TernarySearch.ProbeFinds | ConsoleApp/Algorithm/Searching/TernarySearch.cs:24-36 | in an ascending array, the branch the value selects keeps it in range, so it is found |
| TernarySearch.Finds | ConsoleApp/Algorithm/Searching/TernarySearch.cs:11-14 | in an ascending array, -1 is returned exactly when the value is absent |
| Arrays.Copy | ConsoleApp/Algorithm/Array.cs:50-51 | the copy is a new array holding the same entries in the same order |
| Arrays.SmallestValue | ConsoleApp/Algorithm/Array.cs:12-23 | 0 for an empty array; otherwise an entry of the array that is at most every entry |
| Arrays.GreatestValue | ConsoleApp/Algorithm/Array.cs:30-41 | 0 for an empty array; otherwise an entry of the array that is at least every entry |
| Arrays.Pass | ConsoleApp/Algorithm/Array.cs:55-65 | one sweep of adjacent exchanges settles one more entry at the top and only permutes; it counts 0 exchanges exactly when the array was already ascending, and then changes nothing |
| Arrays.PassDone | ConsoleApp/Algorithm/Array.cs:56-65 | at the end of a sweep one more entry is settled, and a sweep without exchanges leaves an ascending array |
| Arrays.OrderbyAscending | ConsoleApp/Algorithm/Array.cs:48-68 | the result is an ascending permutation of the input, which is left unchanged |
| Arrays.BubbleSort | ConsoleApp/Algorithm/Array.cs:75-91 | the result is an ascending permutation of the input, which is left unchanged |
| Arrays.BinarySearch | ConsoleApp/Algorithm/Array.cs:117-138 | the result is -1 or an index holding the item; on an ascending array it is -1 exactly when the item is absent |
| Arrays.Reverse | ConsoleApp/Algorithm/Array.cs:187-198 | the result has the input's length and holds at `i` the input's entry `n - 1 - i` |
| Arrays.Exchanged | ConsoleApp/Algorithm/Array.cs:152-160 | the exchange puts each of the two entries at the other's index and keeps the length |
| Arrays.Permute | ConsoleApp/Algorithm/Array.cs:150-176 | the recursive enumeration returns the arrangements of the entries from `k` on, in the source's order, and leaves the array as it found it |
| Arrays.Permutation | ConsoleApp/Algorithm/Array.cs:148-179 | for `k >= 0` the arrangements from `k` on, with the array restored; for a negative `k` the out-of-range read, except that `k = -1` on an empty array yields one empty arrangement |
| Arrays.ArrangementsCount | ConsoleApp/Algorithm/Array.cs:164-173 | there are `(n - k)!` arrangements for `k < n`, so `n!` from `k = 0`, and none for `k >= n` |
| Arrays.ArrangementsPermute | ConsoleApp/Algorithm/Array.cs:164-173 | every arrangement keeps the first `k` entries and permutes the rest |
| Bitwise.OneAt | ConsoleApp/Algorithm/Bitwise.cs:89-92 | `1 << n` has exactly one bit, at `n % 32`, as C# masks the shift count |
| Bitwise.OneBits | ConsoleApp/Algorithm/Bitwise.cs:16 | bit `k` of `1 << n` is set exactly when `k` is `n % 32` |
| Bitwise.SetBits | ConsoleApp/Algorithm/Bitwise.cs:14-17 | `Set` turns bit `index % 32` on and keeps every other bit |
| Bitwise.ResetAsWritten | ConsoleApp/Algorithm/Bitwise.cs:25-28 | as written, `value & (0 << index)` is 0 for every input |
| Bitwise.ResetClearsOthers | ConsoleApp/Algorithm/Bitwise.cs:25-28 | resetting bit 0 of 3 as written also clears bit 1, which should have stayed |
| Bitwise.Not | ConsoleApp/Algorithm/Bitwise.cs:25-28 | `~x` flips all 32 bits of the pattern |
| Bitwise.NotBits | ConsoleApp/Algorithm/Bitwise.cs:25-28 | bit `k` of `~x` is set exactly when `k < 32` and bit `k` of `x` is clear |
| Bitwise.ResetBits | ConsoleApp/Algorithm/Bitwise.cs:19-28 | the corrected `Reset`, `value & ~(1 << index)`, clears bit `index % 32` and keeps every other bit |
| Bitwise.GetBit | ConsoleApp/Algorithm/Bitwise.cs:36-39 | `Get` is non-zero exactly when bit `index % 32` is set, and then holds that bit alone |
| Bitwise.LowBit | ConsoleApp/Algorithm/Bitwise.cs:48 | `value & 1` is the value's remainder modulo 2 |
| Bitwise.Parity | ConsoleApp/Algorithm/Bitwise.cs:46-59 | `IsEven` is the negation of `IsOdd`, and holds exactly for even values, negative ones included |
| Bitwise.SignBit | ConsoleApp/Algorithm/Bitwise.cs:67-70 | an `int` is negative exactly when bit 31 is set |
| Bitwise.OppositeSigns | ConsoleApp/Algorithm/Bitwise.cs:67-70 | `IsOppositeSigns` holds exactly when one argument is negative and the other is not |
| Bitwise.Swap | ConsoleApp/Algorithm/Bitwise.cs:77-82 | the three exclusive-or assignments exchange the two values |
| Bitwise.Power2Value | ConsoleApp/Algorithm/Bitwise.cs:89-92 | `Power2(n)` is 2^n for `0 <= n < 31`, and `int.MinValue` for 31 |
| Bitwise.Log2 | ConsoleApp/Algorithm/Bitwise.cs:99-102 | 0 for values up to 1; for `value >= 1` the `r` with `2^r <= value < 2^(r+1)` |
| Bitwise.Exponentiation | ConsoleApp/Algorithm/Bitwise.cs:110-117 | `BinaryExponentiation(x, y)` is x to the power of the absolute value of y, wrapped to 32 bits, so `x^y` for `y >= 0` |
| Bitwise.PowerAdd | ConsoleApp/Algorithm/Bitwise.cs:115-116 | `x^(m+n) = x^m * x^n`, the law the halving step relies on |
| Bitwise.Halves | ConsoleApp/Algorithm/Bitwise.cs:115-116 | `x^n` is the square of `x^(n/2)`, times `x` when `n` is odd |
| Bitwise.OddBit | ConsoleApp/Algorithm/Bitwise.cs:116 | `y & 1` is 1 exactly when the absolute value of `y` is odd, negative `y` included |
| Bitwise.WrapTimes | ConsoleApp/Algorithm/Bitwise.cs:116 | wrapping the factors of a product to 32 bits does not change the wrapped product |
| Bitwise.Squares | ConsoleApp/Algorithm/Bitwise.cs:116 | `e * e` and `e * e * x` on wrapped values are the wrapped exact products |
| Recursion.Counting | ConsoleApp/Algorithm/Recursion.cs:16-36 | for a positive value both functions list the numbers from 0 to the value separated by spaces, one counting down and the other up; otherwise both give "0" |
| Recursion.CountingDown | ConsoleApp/Algorithm/Recursion.cs:16-22 | `FromValueToOne` is the spaced listing from the value down to 0 |
| Recursion.CountingUp | ConsoleApp/Algorithm/Recursion.cs:30-36 | `FromOneToValue` is the spaced listing from 0 up to the value |
| Recursion.Triangle | ConsoleApp/Algorithm/Recursion.cs:44-50 | `SumOfFirstNNumber(n)` is `n(n+1)/2` wrapped to 32 bits, and 0 when `n` is not positive |
| Recursion.Separated | ConsoleApp/Algorithm/Recursion.cs:58-64 | for a positive value the result is its decimal text with a space before each digit |
| Recursion.Spaced | ConsoleApp/Algorithm/Recursion.cs:58-64 | the spaced text is twice as long as the digits |
| Recursion.DigitCountOfValue | ConsoleApp/Algorithm/Recursion.cs:72-78 | the count is never negative and never above a positive value |
| Recursion.DigitSumOfValue | ConsoleApp/Algorithm/Recursion.cs:85-91 | the sum is never negative and never above a positive value |
| Recursion.Digits | ConsoleApp/Algorithm/Recursion.cs:72-91 | for a positive value the count is the length of its decimal text and the sum is the total of its digits; otherwise both are 0 |
| Recursion.DigitSumSplit | ConsoleApp/Algorithm/Recursion.cs:129-135 | `DigitSumOfRange` over a range split in two is the wrapped sum of the two parts |
| Recursion.EvensSplit | ConsoleApp/Algorithm/Recursion.cs:100-106 | the even listing of a range is the listing of its first part followed by that of the rest |
| Recursion.OddsSplit | ConsoleApp/Algorithm/Recursion.cs:115-121 | the corrected odd listing of a range is the listing of its first part followed by that of the rest |
| Recursion.Single | ConsoleApp/Algorithm/Recursion.cs:100-121 | one number is listed by `EvensInRange` exactly when it is even, and by the corrected `OddsInRange` exactly when it is odd, negative numbers included |
| Recursion.Parity | ConsoleApp/Algorithm/Recursion.cs:103 | C#'s `x % 2 == 0` holds exactly for even `x`, negative ones included |
| Recursion.RemZero | ConsoleApp/Algorithm/Recursion.cs:148 | C#'s `v % d` by a positive `d` is 0 exactly when `d` is a factor of `v` |
| Recursion.OddsMissNegatives | ConsoleApp/Algorithm/Recursion.cs:115-121 | as written, `OddsInRange(-1, 0)` lists nothing, because C#'s `-1 % 2` is -1; the corrected test lists "-1 " |
| Recursion.PrimeFromMeaning | ConsoleApp/Algorithm/Recursion.cs:145-151 | as written, the inner test checks only the divisors from `k` up to below `value / 2` |
| Recursion.FourPasses | ConsoleApp/Algorithm/Recursion.cs:143-154 | as written, `IsPrime(4)` is true although 2 divides 4 |
| Recursion.PrimeFromNoDivisor | ConsoleApp/Algorithm/Recursion.cs:145-151 | the corrected inner test, with `k <= value / 2`, holds exactly when no number from `k` to `value / 2` is a factor |
| Recursion.IsPrimeMeaning | ConsoleApp/Algorithm/Recursion.cs:143-154 | the corrected `IsPrime` holds exactly for values of at least 2 with no factor strictly between 1 and the value |
| Recursion.Reverse | ConsoleApp/Algorithm/Recursion.cs:290-296 | the reverse has the text's length |
| Recursion.ReverseAt | ConsoleApp/Algorithm/Recursion.cs:290-296 | position `i` of the reverse holds the character `i` places from the end |
| Recursion.ReverseTwice | ConsoleApp/Algorithm/Recursion.cs:290-296 | reversing twice gives the text back |
| Recursion.Palindrome | ConsoleApp/Algorithm/Recursion.cs:162-168 | `IsPalindrome` holds exactly when the text equals its reverse |
| Recursion.PalindromeAt | ConsoleApp/Algorithm/Recursion.cs:162-168 | each character of a palindrome equals the one as far from the other end |
| Recursion.FactorialValue | ConsoleApp/Algorithm/Recursion.cs:176-182 | `Factorial(n)` is `n!` wrapped to 32 bits for `n >= 0`, and 1 for a negative `n` |
| Recursion.FibonacciValue | ConsoleApp/Algorithm/Recursion.cs:190-199 | `Fibonacci(n)` is the `n`-th Fibonacci number (0, 1, 1, 2, ...) wrapped to 32 bits |
| Recursion.FibonacciSumValue | ConsoleApp/Algorithm/Recursion.cs:221-227 | `FibonacciSum(n)` is `F(n + 2) - 1`, wrapped to 32 bits |
| Recursion.FibonacciListing | ConsoleApp/Algorithm/Recursion.cs:207-213 | `FibonacciArray(n)` is a space followed by `Fibonacci(0)` to `Fibonacci(n)` separated by spaces |
| Recursion.GreatCommonDivisor | ConsoleApp/Algorithm/Recursion.cs:236-242 | throws OverflowException exactly for the lowest `int` paired with -1; otherwise it returns a value that is non-zero unless both arguments are 0, and non-negative for non-negative arguments |
| Recursion.RemByLowest | ConsoleApp/Algorithm/Recursion.cs:241 | C#'s remainder by the lowest `int` or by -1, the two divisors that reach the overflow |
| Recursion.RemainderDivisors | ConsoleApp/Algorithm/Recursion.cs:241 | a divisor of `y` divides `x` exactly when it divides `x % y`, the step Euclid's algorithm relies on |
| Recursion.CommonDivisor | ConsoleApp/Algorithm/Recursion.cs:236-242 | the result divides both arguments, and every common divisor divides it |
| Recursion.LeastCommonMultiple | ConsoleApp/Algorithm/Recursion.cs:251-254 | throws DivideByZeroException when `y` is 0 and OverflowException for the lowest `int` and -1 |
| Recursion.LeastCommonMultipleValue | ConsoleApp/Algorithm/Recursion.cs:251-254 | for positive arguments whose product fits in an `int`, the result times the greatest common divisor is the product, and both arguments divide it |
| Recursion.Binary | ConsoleApp/Algorithm/Recursion.cs:262-268 | the binary text of a positive value reads back as the value and starts with 1; a value that is not positive gives "" |
| Recursion.BinaryOver | ConsoleApp/Algorithm/Recursion.cs:262-268 | the binary text uses only the digits 0 and 1 |
| Recursion.Hexadecimal | ConsoleApp/Algorithm/Recursion.cs:276-282 | the hexadecimal text of a positive value reads back as the value, has no leading 0 and uses only 0-9 and A-F; a value that is not positive gives "" |
| Recursion.HexDigit | ConsoleApp/Algorithm/Recursion.cs:279 | the character `48 + d` (plus 7 past 9) for `d < 16` is the digit that reads back as `d` |
| Recursion.CombinationValue | ConsoleApp/Algorithm/Recursion.cs:341-350 | in range the result is the binomial coefficient wrapped to 32 bits; out of range, away from the edges, it is -1 |
| Recursion.PascalStep | ConsoleApp/Algorithm/Recursion.cs:349 | Pascal's rule holds inside the range |
| Recursion.ChooseFactorials | ConsoleApp/Algorithm/Recursion.cs:341-350 | the binomial coefficient is `n! / (k! (n - k)!)` |
| Recursion.PermutationValue | ConsoleApp/Algorithm/Recursion.cs:359-368 | in range the result is `n! / (n - k)!` wrapped to 32 bits; for `k != 0` out of range it is -1 |
| OutCategory.Tokens | ConsoleApp/Algorithm/OutCategory.cs:12-22 | every number is spelled by at least one switch key |
| OutCategory.SpelledText | ConsoleApp/Algorithm/OutCategory.cs:12-57 | the text is the words of the number's switch keys, in order, separated by single spaces |
| OutCategory.TokensAreKeys | ConsoleApp/Algorithm/OutCategory.cs:12-57 | from 0 on, the recursion reaches only numbers the switch has a word for, so no word is empty |
| OutCategory.KeyWord | ConsoleApp/Algorithm/OutCategory.cs:23-56 | each switch key (0 to 20, the tens, 100 and 1000) has its own non-empty word, and the word determines the key |
| OutCategory.ReadsBack | ConsoleApp/Algorithm/OutCategory.cs:12-22 | reading the keys of a non-negative number as thousands, hundreds, tens and units gives the number back |
| OutCategory.ReadHundreds | ConsoleApp/Algorithm/OutCategory.cs:17-22 | below 1000 the keys read back as the number itself |
| OutCategory.Spelled | ConsoleApp/Algorithm/OutCategory.cs:12-57 | for a non-negative number the text spells keys that each read back, and together they read back as the number |
| OutCategory.FixedWords | ConsoleApp/Algorithm/OutCategory.cs:23-56 | a switch key is spelled by its own word, and a negative number by "" |
| OutCategory.CanGiveBloodAsWritten | ConsoleApp/Algorithm/OutCategory.cs:59-92 | as written, an empty blood type throws (`from[..^1]` on an empty string) |
| OutCategory.CanGiveBlood | ConsoleApp/Algorithm/OutCategory.cs:59-92 | the corrected version throws on an empty blood type as the source does |
| OutCategory.ReplaceGroups | ConsoleApp/Algorithm/OutCategory.cs:84 | `"AB".Replace(g, "")` for the groups A, B, AB and O |
| OutCategory.SameGroupAndAB | ConsoleApp/Algorithm/OutCategory.cs:72-80 | in both versions the same group is decided by the Rh rule alone, and an AB donor gives to no other group |
| OutCategory.Compatible | ConsoleApp/Algorithm/OutCategory.cs:59-92 | for well-formed blood types the corrected version is exactly the ABO rule together with the Rh rule |
| OutCategory.AGivesToO | ConsoleApp/Algorithm/OutCategory.cs:82-87 | as written, A+ may give to O+, which the ABO rule forbids; the corrected version refuses it |
| OutCategory.AsWrittenOtherwiseAgrees | ConsoleApp/Algorithm/OutCategory.cs:59-92 | the version as written agrees with the corrected one everywhere except for an A or B donor and an O recipient |
| OutCategory.Check | ConsoleApp/Algorithm/OutCategory.cs:108-127 | the flood fill only adds marks, returns how many it added, marks the cell when it is land, and the new marks are exactly land reachable from the cell |
| OutCategory.Around | ConsoleApp/Algorithm/OutCategory.cs:119-126 | the eight neighbour checks together mark every land neighbour and return the number of new marks |
| OutCategory.Visit | ConsoleApp/Algorithm/OutCategory.cs:123-124 | one neighbour check marks that neighbour's land and counts what it added |
| OutCategory.IslandMarked | ConsoleApp/Algorithm/OutCategory.cs:108-127 | the cells a flood fill from unmarked land marks are exactly that cell's island |
| OutCategory.SameComponent | ConsoleApp/Algorithm/OutCategory.cs:121-124 | 8-connected land cells have the same island |
| OutCategory.ConnectedBack | ConsoleApp/Algorithm/OutCategory.cs:121-124 | 8-connection is symmetric |
| OutCategory.ConnectedTrans | ConsoleApp/Algorithm/OutCategory.cs:121-124 | 8-connection is transitive |
| OutCategory.ComponentSize | ConsoleApp/Algorithm/OutCategory.cs:108-127 | a land cell's island contains it, is land, and has between 1 and the number of land cells |
| OutCategory.LargestIsland | ConsoleApp/Algorithm/OutCategory.cs:94-141 | -1 exactly for an empty or ragged map; otherwise the size of the largest 8-connected island, between 0 and the number of land cells, and 0 exactly when there is no land |
| OutCategory.CheckRow | ConsoleApp/Algorithm/OutCategory.cs:129-138 | one row of the scan keeps the marks whole islands of land and the running largest the largest among them, and covers the row |
| OutCategory.CheckCell | ConsoleApp/Algorithm/OutCategory.cs:131-137 | one cell of the scan marks that cell's island if it is land and updates the running largest |
| OutCategory.IslandStep | ConsoleApp/Algorithm/OutCategory.cs:133-136 | after a flood fill the marks are still whole islands of land, and the larger of the old largest and the new size is the largest among them |
| OutCategory.IslandsFound | ConsoleApp/Algorithm/OutCategory.cs:129-140 | once every land cell is marked, the running largest is the size of the largest island |
| OutCategory.SameWidth | ConsoleApp/Algorithm/OutCategory.cs:99-101 | when every row is as long as the one before it, every row is as long as the first |
| OutCategory.CountSums | ConsoleApp/Algorithm/OutCategory.cs:204-214 | the nested loops count the pairs of entries at different places that sum to `next` |
| OutCategory.UlamSequence | ConsoleApp/Algorithm/OutCategory.cs:186-223 | exactly `value` entries (none below 1), strictly increasing, and an Ulam sequence: 1, 2, then each entry the least larger number that is a sum of two earlier entries in exactly one way |
| OutCategory.Extend | ConsoleApp/Algorithm/OutCategory.cs:215-218 | appending the next Ulam number keeps the list an increasing Ulam sequence |
| OutCategory.OnlyOneWay | ConsoleApp/Algorithm/OutCategory.cs:202-220 | the sum of the last two entries has exactly one representation, so the candidate search ends |
| OutCategory.Gcd | ConsoleApp/Algorithm/OutCategory.cs:232-238 | Euclid's algorithm on naturals is positive unless both arguments are 0 |
| OutCategory.GcdDivides | ConsoleApp/Algorithm/OutCategory.cs:232-238 | the result divides both arguments |
| OutCategory.GcdAgrees | ConsoleApp/Algorithm/OutCategory.cs:232-238 | on non-negative `int`s the local `GreatCommonDivisor` returns Euclid's result |
| OutCategory.LeastMultiple | ConsoleApp/Algorithm/OutCategory.cs:243-248 | the exact product built by the loop is positive |
| OutCategory.MultipleOfAll | ConsoleApp/Algorithm/OutCategory.cs:243-248 | the exact product after `n` steps is a multiple of every number from 1 to `n` |
| OutCategory.LeastMultipleDivides | ConsoleApp/Algorithm/OutCategory.cs:243-248 | the exact product divides every common multiple of 1 to `n` |
| OutCategory.LeastMultipleIsLeast | ConsoleApp/Algorithm/OutCategory.cs:243-248 | no positive common multiple of 1 to `n` is smaller than the exact product |
| OutCategory.SmallestNumber | ConsoleApp/Algorithm/OutCategory.cs:230-251 | 0 below 1; otherwise, while the least common multiple of 1 to `value` fits an `int`, exactly that multiple |
| OutCategory.Quotient | ConsoleApp/Algorithm/OutCategory.cs:247 | `i / gcd` for a divisor above 1 stays an `int` and is the exact quotient |
| OutCategory.ExactStep | ConsoleApp/Algorithm/OutCategory.cs:246-247 | one turn of the loop in wrapping `int` arithmetic agrees with the exact product while that fits an `int` |
| Colors.RawValue | ConsoleApp/Colors/Color.cs:27-33 | the packed value of any three channels lies in `0 .. 2^24 - 1` |
| Colors.ColorRoundTrip | ConsoleApp/Colors/Color.cs:13-33 | unpacking a colour's packed value gives back the same red, green and blue |
| Colors.RawRoundTrip | ConsoleApp/Colors/Color.cs:20-33 | every value below 2^24 is the packing of the colour it unpacks to |
| Colors.HexChar | ConsoleApp/Colors/Color.cs:39 | the digit `{:X}` writes for `d < 16` is an uppercase hexadecimal digit that reads back as `d` |
| Colors.HexCode | ConsoleApp/Colors/Color.cs:35-41 | the hex code is "#" followed by six uppercase hexadecimal digits |
| Colors.ReadHex2 | ConsoleApp/Colors/Color.cs:39 | the two digits of `{:X2}` read back as the byte they were written from |
| Colors.HexCodeReadsBack | ConsoleApp/Colors/Color.cs:35-41 | the six digits of the hex code, read in base 16, are the packed value |
| Colors.IndianRed | ConsoleApp/Colors/Color.cs:43-44 | Indian red packs to 13458524 |
| Colors.IndianRedChannels | ConsoleApp/Colors/Color.cs:43-44 | Indian red is (205, 92, 92) |
| Colors.IndianRedHex | ConsoleApp/Colors/Color.cs:43-44 | Indian red is written #CD5C5C |
| AStar.StepsForms | ConsoleApp/Algorithm/AStarPathFinding.cs:146-151 | `14 * min + 10 * abs(dx - dy)` equals 10 per step along the longer side plus 4 per diagonal step |
| AStar.DistanceMetric | ConsoleApp/Algorithm/AStarPathFinding.cs:146-151 | `GetDistance` is symmetric, never negative, and 0 exactly between a node and itself |
| AStar.Triangle | ConsoleApp/Algorithm/AStarPathFinding.cs:146-151 | `GetDistance` satisfies the triangle inequality, so the heuristic never overestimates a route |
| AStar.NeighbourCost | ConsoleApp/Algorithm/AStarPathFinding.cs:112 | a step to a neighbour costs 10 straight and 14 diagonally |
| AStar.Create | ConsoleApp/Algorithm/AStarPathFinding.cs:20-48 | throws ArgumentException exactly when there are no rows, a row's length differs from the first row's, or a character is neither 0 nor 1; otherwise a fresh finder over the rows with nothing found |
| AStar.AStarPathFinding.constructor | ConsoleApp/Algorithm/AStarPathFinding.cs:34-47 | a finder over checked rows starts with no start or end node, empty open and closed lists and nothing found |
| AStar.AStarPathFinding.ResetNodes | ConsoleApp/Algorithm/AStarPathFinding.cs:55-56 | every node's costs and parent are cleared |
| AStar.AStarPathFinding.FindPath | ConsoleApp/Algorithm/AStarPathFinding.cs:50-126 | an out-of-range start or end leaves everything cleared and nothing found; otherwise the search tree grows from the start, the end is found exactly when it was closed, a failed search empties the open list, a start equal to the end is found at once, and the end is found exactly when some route of neighbouring cells, walkable after the start, leads from the start to it (so "No paths found to end" means no such route exists) |
| AStar.AStarPathFinding.Search | ConsoleApp/Algorithm/AStarPathFinding.cs:73-124 | the main loop keeps the search tree, stops with the end found exactly when it was closed, and otherwise with an empty open list; the end is found exactly when a route of neighbouring walkable cells leads to it |
| AStar.AStarPathFinding.Turn | ConsoleApp/Algorithm/AStarPathFinding.cs:76-123 | one turn closes one more grid cell, which bounds the loop, finds the end exactly when it closes it, and otherwise keeps every walkable neighbour of a closed cell open or closed |
| AStar.AStarPathFinding.Cheapest | ConsoleApp/Algorithm/AStarPathFinding.cs:77-80 | the chosen open node has the least F cost, ties going to the least H cost, and is the first such node in the list |
| AStar.AStarPathFinding.Close | ConsoleApp/Algorithm/AStarPathFinding.cs:82-83 | the node leaves the open list and joins the closed set, and every other open node stays open |
| AStar.AStarPathFinding.Expand | ConsoleApp/Algorithm/AStarPathFinding.cs:92-123 | the neighbour loops keep the search tree, leave no node twice in the open list, keep every open node open, and leave every walkable, unclosed neighbour of the current node open |
| AStar.AStarPathFinding.Relax | ConsoleApp/Algorithm/AStarPathFinding.cs:96-121 | a walkable, unclosed neighbour that is cheaper through the current node or not yet open gets the new G cost, the distance to the end as H cost and the current node as parent, and is appended to the open list if absent; otherwise nothing changes; no other node changes |
| AStar.AStarPathFinding.Adopt | ConsoleApp/Algorithm/AStarPathFinding.cs:112-121 | the neighbour takes the new costs and the current node as parent, and joins the open list once |
| AStar.AStarPathFinding.OnGrid | ConsoleApp/Algorithm/AStarPathFinding.cs:102-110 | every open and closed node is on the grid |
| AStar.AStarPathFinding.Explored | ConsoleApp/Algorithm/AStarPathFinding.cs:108-110 | apart from the start, open and closed nodes are walkable, and no open node is closed |
| AStar.AStarPathFinding.Grows | ConsoleApp/Algorithm/AStarPathFinding.cs:82-83 | each turn leaves fewer grid cells unclosed |
| AStar.AStarPathFinding.Walk | ConsoleApp/Algorithm/AStarPathFinding.cs:133-141 | following parents from a closed node leads back to the start |
| AStar.AStarPathFinding.WalkStep | ConsoleApp/Algorithm/AStarPathFinding.cs:139 | each parent is closed and has a smaller G cost, so the walk back terminates |
| AStar.AStarPathFinding.WalkSteps | ConsoleApp/Algorithm/AStarPathFinding.cs:133-141 | the route goes through neighbouring grid cells, all walkable after the start |
| AStar.AStarPathFinding.Rebound | ConsoleApp/Algorithm/AStarPathFinding.cs:82-123 | after a node is closed and its walkable neighbours opened, every walkable neighbour of a closed node is open or closed |
| AStar.AStarPathFinding.FoundRoute | ConsoleApp/Algorithm/AStarPathFinding.cs:85-89 | a closed end is reached from the start by a route of neighbouring walkable cells |
| AStar.AStarPathFinding.RouteClosed | ConsoleApp/Algorithm/AStarPathFinding.cs:73-124 | once nothing is open, every cell a route from the closed start reaches is closed, so an unclosed end has no route |
| AStar.AStarPathFinding.GetPath | ConsoleApp/Algorithm/AStarPathFinding.cs:128-144 | "No paths found to end" when nothing was found; a NullReferenceException when the start is the end; otherwise the route from start to end, one cell per line, with its move count |
| AStar.AStarPathFinding.TraceStep | ConsoleApp/Algorithm/AStarPathFinding.cs:136-141 | one turn of the loop prepends the parent's line and keeps the rest of the route |
| AStar.AStarPathFinding.Trace | ConsoleApp/Algorithm/AStarPathFinding.cs:133-142 | the text is the route from start to end, one line per cell, and the number of moves |
| AStar.RemoveDistinct | ConsoleApp/Algorithm/AStarPathFinding.cs:82 | `List.Remove` on a list without repeats takes out exactly that node |
| TicTacToe.Pack | ConsoleApp/TicTacToe/TicTacToe.cs:11 | `Value` holds square `k` as the base-4 digit `k` and the turn as the tenth digit, and stays below 2^19 |
| TicTacToe.Shifted | ConsoleApp/TicTacToe/TicTacToe.cs:28 | `Value >> (2 * k)` is the packed squares from `k` on and the turn |
| TicTacToe.ReadSquare | ConsoleApp/TicTacToe/TicTacToe.cs:28 | `(Value >> (2 * k)) & 0b11` reads square `k` back |
| TicTacToe.ReadRow | ConsoleApp/TicTacToe/TicTacToe.cs:75 | `(Value >> (6 * i)) & 0b111111` is row `i`'s three squares packed |
| TicTacToe.MaskTest | ConsoleApp/TicTacToe/TicTacToe.cs:13-14 | a line passes `(value & mask) == mask` with X's mask exactly when all three squares hold 1, and with O's mask exactly when all hold 2 |
| TicTacToe.Write | ConsoleApp/TicTacToe/TicTacToe.cs:141 | writing a mark into an empty square adds the mark at that square's digit |
| TicTacToe.Placed | ConsoleApp/TicTacToe/TicTacToe.cs:141 | `Value += mark << (2 * index)` on an empty square is the packing with that square marked |
| TicTacToe.Passed | ConsoleApp/TicTacToe/TicTacToe.cs:142 | adding or taking away `1 << 18` flips the turn |
| TicTacToe.Owners | ConsoleApp/TicTacToe/TicTacToe.cs:78 | `mask >> 4` is 1 for X's mask and 2 for O's |
| TicTacToe.CellsAt | ConsoleApp/TicTacToe/TicTacToe.cs:40-51 | square `k` is written at column `2k` plus the line breaks before it |
| TicTacToe.BoardShowsSquares | ConsoleApp/TicTacToe/TicTacToe.cs:40-51 | the board is 20 characters and shows each square as X, O or a dot |
| TicTacToe.FillBalanced | ConsoleApp/TicTacToe/TicTacToe.cs:131-144 | a successful `Fill` keeps X's count equal to O's count plus the turn |
| TicTacToe.Game.constructor | ConsoleApp/TicTacToe/TicTacToe.cs:32-35 | a new game has every square empty and X to move |
| TicTacToe.Game.Get | ConsoleApp/TicTacToe/TicTacToe.cs:21-30 | -1 for an index outside 0..8, otherwise the square's 0, 1 or 2 |
| TicTacToe.Game.Board | ConsoleApp/TicTacToe/TicTacToe.cs:40-51 | the text of the nine squares, "X ", "O " or ". ", with a line break after the first two rows |
| TicTacToe.Game.Turn | ConsoleApp/TicTacToe/TicTacToe.cs:56-62 | `Value >> 18` is 0 when X is to move and 1 when O is |
| TicTacToe.Game.Packed | ConsoleApp/TicTacToe/TicTacToe.cs:81 | `this[a] + (this[b] << 2) + (this[c] << 4)` packs the three squares |
| TicTacToe.Game.Row | ConsoleApp/TicTacToe/TicTacToe.cs:75 | row `i` packed |
| TicTacToe.Game.RowWon | ConsoleApp/TicTacToe/TicTacToe.cs:75-79 | the row test passes exactly when the player holds row `i` |
| TicTacToe.Game.LineWon | ConsoleApp/TicTacToe/TicTacToe.cs:81-94 | the column or diagonal test passes exactly when the player holds the three squares |
| TicTacToe.Game.Wins | ConsoleApp/TicTacToe/TicTacToe.cs:71-96 | one mask's loops succeed exactly when that player holds a row, a column or a diagonal |
| TicTacToe.Game.Winner | ConsoleApp/TicTacToe/TicTacToe.cs:67-100 | 1 when X holds a full line, else 2 when O does, else 0 |
| TicTacToe.Game.Active | ConsoleApp/TicTacToe/TicTacToe.cs:105-125 | false exactly when someone holds a full line or no square is empty |
| TicTacToe.Game.Fill | ConsoleApp/TicTacToe/TicTacToe.cs:131-144 | succeeds exactly for an empty square in range; it then writes 1 on X's turn and 2 on O's into that square alone and flips the turn; otherwise nothing changes |
| W2048.FindIndex | ConsoleApp/2048/W2048.cs:177-184 | an index for the four directions and an ArgumentException for any other; the index of a cell in the 4x4 grid lies in 0..15 |
| W2048.IndexInverse | ConsoleApp/2048/W2048.cs:177-184 | for each direction, line and place can be read back from the index |
| W2048.IndexOnto | ConsoleApp/2048/W2048.cs:177-184 | every one of the 16 indexes is a cell of some line, for each direction |
| W2048.FindIndexBijection | ConsoleApp/2048/W2048.cs:177-184 | for each direction `FindIndex` is a bijection from the 4x4 (line, place) pairs onto 0..15 |
| W2048.CompactSpec | ConsoleApp/2048/W2048.cs:66-84 | the slid line has the same length, keeps the tiles in order, and has every empty cell behind them |
| W2048.CompactIdempotent | ConsoleApp/2048/W2048.cs:66-84 | sliding a slid line changes nothing |
| W2048.Game.OrderByZero | ConsoleApp/2048/W2048.cs:66-84 | a new array holding the input's non-zero entries in order, followed by zeros |
| W2048.Game.ReadLine | ConsoleApp/2048/W2048.cs:92-96 | line `i` is copied into a new array in its direction's order |
| W2048.Game.WriteLine | ConsoleApp/2048/W2048.cs:98-105 | the line is written back cell by cell, and the count is the number of cells that changed |
| W2048.Game.Slide | ConsoleApp/2048/W2048.cs:86-107 | line `i` becomes slid, nothing else changes, and the count is the number of its cells that changed; a line number outside 0..3 does nothing and returns 0 |
| W2048.MergeFrom | ConsoleApp/2048/W2048.cs:109-137 | the corrected merge keeps the line's length |
| W2048.MergeNonZeros | ConsoleApp/2048/W2048.cs:109-137 | after the corrected merge, the tiles of the line are the standard 2048 collapse of the tiles (each equal pair of neighbours joined once, from the front) |
| W2048.MergeCount | ConsoleApp/2048/W2048.cs:129-132 | each counted join takes one tile off the line |
| W2048.MergeNone | ConsoleApp/2048/W2048.cs:109-137 | a merge that counts no join leaves the line as it was |
| W2048.MergeSum | ConsoleApp/2048/W2048.cs:109-137 | the corrected merge keeps the sum of the line's tiles |
| W2048.MergeAsWrittenSum | ConsoleApp/2048/W2048.cs:109-137 | the merge as written keeps the sum of the line's tiles too |
| W2048.MergeAsWrittenJoinsAcross | ConsoleApp/2048/W2048.cs:121-134 | as written, [2, 4, 2, 0] joins the two 2s across the 4, and [2, 2, 4, 0] becomes [8, 0, 0, 0]; the corrected merge leaves the first alone and moves the second to [4, 4, 0, 0] |
| W2048.ShiftedSpec | ConsoleApp/2048/W2048.cs:158-166 | a moved line is the collapsed tiles followed by empty cells, and keeps the line's sum |
| W2048.Game.Behind | ConsoleApp/2048/W2048.cs:121-126 | the inner loop finds the first tile behind place `j`, or the end of the line |
| W2048.Game.Join | ConsoleApp/2048/W2048.cs:127-131 | tile `j` doubles, tile `k` empties, and nothing else changes |
| W2048.Game.Merge | ConsoleApp/2048/W2048.cs:109-137 | line `i` is merged by the corrected rule, nothing else changes, and the count is the number of joins; a line number outside 0..3 does nothing and returns 0 |
| W2048.SetLineAt | ConsoleApp/2048/W2048.cs:98-105 | a partly written line holds the new values below place `n` and the old ones from `n` on |
| W2048.SetLineOff | ConsoleApp/2048/W2048.cs:98-105 | writing line `i` keeps every cell off that line |
| W2048.LineAtSet | ConsoleApp/2048/W2048.cs:98-105 | a written line reads back |
| W2048.LineAtOther | ConsoleApp/2048/W2048.cs:158-166 | writing one line leaves every other line as it was |
| W2048.MoveStep | ConsoleApp/2048/W2048.cs:161-165 | `Merge` then `Slide` on line `i` moves the board one line further, and the two counts are positive together exactly when that line changes |
| W2048.MovedLines | ConsoleApp/2048/W2048.cs:158-166 | after a move every line is its own line merged and slid |
| W2048.MovedChanges | ConsoleApp/2048/W2048.cs:158-175 | the board changes exactly when one of its lines does |
| W2048.Game.MoveLines | ConsoleApp/2048/W2048.cs:160-165 | every line is merged and slid, and the count is positive exactly when some line changed |
| W2048.EmptyEndsSpec | ConsoleApp/2048/W2048.cs:139-156 | a cell is a candidate for the new 2 exactly when it is empty and at the far end of its line |
| W2048.SpawnAlways | ConsoleApp/2048/W2048.cs:167-172 | after a move that changed the board there is always an empty far-end cell for the new 2 |
| W2048.SpawnCellsAsWritten | ConsoleApp/2048/W2048.cs:144 | as written, the cells tried are the far ends of the lines for left and up, but the front ends for right and down |
| W2048.SpawnAsWrittenMisses | ConsoleApp/2048/W2048.cs:139-156 | a right move that changes the board can leave every cell tried as written full, so no 2 appears, although a far-end cell is empty |
| W2048.Game.PutRandomTwo | ConsoleApp/2048/W2048.cs:139-156 | when some far-end cell is empty a 2 goes on one of them, chosen freely, and nothing else changes; otherwise nothing changes (corrected spawn cells, see Findings) |
| W2048.Game.Move | ConsoleApp/2048/W2048.cs:158-175 | true exactly when the move changes the board; then the board is the moved board with a new 2 on an empty far-end cell and the move is counted; otherwise the squares and the move count stay unchanged (corrected spawn cells, see Findings) |
| W2048.Game.MoveLeft | ConsoleApp/2048/W2048.cs:61 | `Move(-1)` |
| W2048.Game.MoveRight | ConsoleApp/2048/W2048.cs:62 | `Move(1)` |
| W2048.Game.MoveUp | ConsoleApp/2048/W2048.cs:63 | `Move(-4)` |
| W2048.Game.MoveDown | ConsoleApp/2048/W2048.cs:64 | `Move(4)` |
| W2048.Game.constructor | ConsoleApp/2048/W2048.cs:53-59 | a new game has no moves and exactly two tiles, both 2 |
| W2048.Game.Get | ConsoleApp/2048/W2048.cs:13-22 | the cell's value, or -1 outside 0..15 |
| W2048.Game.Board | ConsoleApp/2048/W2048.cs:24-39 | each cell's number and a space, row by row, each row ended by a line break |
| W2048.RowsLines | ConsoleApp/2048/W2048.cs:24-39 | the board text has one line break per row and ends with one |
| W2048.Game.Has2048 | ConsoleApp/2048/W2048.cs:41-51 | true exactly when some cell holds 2048 |
| Sudoku.Set | ConsoleApp/Sudoku/Sudoku.cs:214 | the grid with exactly one cell changed |
| Sudoku.SameGrid | ConsoleApp/Sudoku/Sudoku.cs:15 | two 9x9 grids with the same cells are equal |
| Sudoku.BoxCorner | ConsoleApp/Sudoku/Sudoku.cs:172-179 | the box start computed through the box number is `(row / 3) * 3`, `(column / 3) * 3`, and the cells scanned are exactly those of the cell's 3x3 box |
| Sudoku.CandidatesSpec | ConsoleApp/Sudoku/Sudoku.cs:190-201 | the candidate list holds exactly the digits `Fillable` accepts, strictly ascending |
| Sudoku.NoCandidates | ConsoleApp/Sudoku/Sudoku.cs:158-162 | a full cell, or a cell off the grid, has no candidate |
| Sudoku.RemoveSpanHead | ConsoleApp/Sudoku/Sudoku.cs:196-197 | `List.Remove(i)` on the remaining list takes out the span's first entry |
| Sudoku.DigitsSpan | ConsoleApp/Sudoku/Sudoku.cs:192 | the initial list is the digits 1 to 9 |
| Sudoku.FillablesStep | ConsoleApp/Sudoku/Sudoku.cs:194-198 | one pass of the loop keeps digit `i` exactly when it is allowed |
| Sudoku.ZerosInNone | ConsoleApp/Sudoku/Sudoku.cs:64-81 | a row has no empty cell exactly when its zero count is 0 |
| Sudoku.BlanksSet | ConsoleApp/Sudoku/Sudoku.cs:209-216 | writing a digit into an empty cell leaves one empty cell fewer |
| Sudoku.BlanksNone | ConsoleApp/Sudoku/Sudoku.cs:64-81 | the grid has no empty cell exactly when the empty count is 0 |
| Sudoku.PlaceSettles | ConsoleApp/Sudoku/Sudoku.cs:209-216 | writing an allowed digit keeps every digit, and every digit that was unique stays unique |
| Sudoku.PlacedUnique | ConsoleApp/Sudoku/Sudoku.cs:153-182 | a written allowed digit occurs nowhere else in its row, column or box |
| Sudoku.Compose | ConsoleApp/Sudoku/Sudoku.cs:218-233 | keeping and settling compose over several writes |
| Sudoku.SettledConsistent | ConsoleApp/Sudoku/Sudoku.cs:218-233 | a change that settles keeps a grid with no repeated digit free of repeats |
| Sudoku.FillKeepsConsistent | ConsoleApp/Sudoku/Sudoku.cs:209-216 | a successful fill keeps a grid free of repeats and leaves one empty cell fewer |
| Sudoku.StepSpec | ConsoleApp/Sudoku/Sudoku.cs:225-227 | the solver writes a cell exactly when it has a single candidate, with that candidate, keeping every digit and adding no repeat |
| Sudoku.SweepRowBlanks | ConsoleApp/Sudoku/Sudoku.cs:223-228 | a row sweep never adds empty cells, and one that filled nothing changed nothing and met no single-candidate cell |
| Sudoku.SweepBlanks | ConsoleApp/Sudoku/Sudoku.cs:221-229 | a full sweep never adds empty cells, and one that filled nothing changed nothing and met no single-candidate cell |
| Sudoku.SolveSpec | ConsoleApp/Sudoku/Sudoku.cs:218-233 | the solver keeps every digit, adds no repeat, never adds empty cells, and stops only where no cell has a single candidate |
| Sudoku.SolveKeepsConsistent | ConsoleApp/Sudoku/Sudoku.cs:218-233 | the solver keeps a grid free of repeats |
| Sudoku.Sudoku.Grid | ConsoleApp/Sudoku/Sudoku.cs:15 | the cell array read as a 9x9 grid |
| Sudoku.Sudoku.constructor | ConsoleApp/Sudoku/Sudoku.cs:86-89 | a new sudoku has every cell empty |
| Sudoku.Sudoku.Cell | ConsoleApp/Sudoku/Sudoku.cs:23-29 | the cell's value on the grid, an IndexOutOfRangeException off it |
| Sudoku.Sudoku.Empty | ConsoleApp/Sudoku/Sudoku.cs:64-81 | the number of empty cells |
| Sudoku.Sudoku.RowHolds | ConsoleApp/Sudoku/Sudoku.cs:164-166 | true exactly when the row holds the value |
| Sudoku.Sudoku.ColumnHolds | ConsoleApp/Sudoku/Sudoku.cs:168-170 | true exactly when the column holds the value |
| Sudoku.Sudoku.BoxHolds | ConsoleApp/Sudoku/Sudoku.cs:172-179 | true exactly when the cell's 3x3 box holds the value |
| Sudoku.Sudoku.Fillable | ConsoleApp/Sudoku/Sudoku.cs:153-182 | true exactly when the value is a digit 1..9, the cell is on the grid and empty, and neither its row, its column nor its box holds the value |
| Sudoku.Sudoku.Fillables | ConsoleApp/Sudoku/Sudoku.cs:190-201 | the digits the cell accepts, in ascending order |
| Sudoku.Sudoku.Fill | ConsoleApp/Sudoku/Sudoku.cs:209-216 | true exactly when the value is fillable there; then that one cell holds it, otherwise nothing changes |
| Sudoku.Sudoku.Solve | ConsoleApp/Sudoku/Sudoku.cs:218-233 | the grid becomes the repeated sweep of single-candidate cells, so every `SolveSpec` property holds of it |
| Piece.Type | ConsoleApp/Chess/Piece.cs:25-28 | the type of a piece is below 8 |
| Piece.WithColour | ConsoleApp/Chess/Piece.cs:95 | the bitwise or of `colour` and `kind` of a type and a colour code is their sum |
| Piece.OpponentOf | ConsoleApp/Chess/Board.cs:30 | the other colour code, White for Black and Black for White |
| Piece.OtherIndex | ConsoleApp/Chess/Board.cs:31 | the other colour index, 1 for 0 and 0 for 1 |
| Piece.OrDisjoint | ConsoleApp/Chess/Piece.cs:95 | or-ing a type with a colour code adds them, the bits being disjoint |
| Piece.TypeIsLowBits | ConsoleApp/Chess/Piece.cs:25-28 | `piece & typeMask` is the piece modulo 8 |
| Piece.ColourIsMiddleBits | ConsoleApp/Chess/Piece.cs:30-33 | `piece & colourMask` keeps bits 3 and 4 in place |
| Piece.PieceClasses | ConsoleApp/Chess/Piece.cs:35-68 | sliding pieces are the types 4..7, bishop-or-queen exactly bishops and queens, rook-or-queen exactly rooks and queens, empty exactly types 0 and 4, and every piece is of its own type |
| Piece.ColourOfPiece | ConsoleApp/Chess/Piece.cs:30-48 | for a piece code below 16, the colour is White below 8 and Black from 8, the white test agrees, and the colour index is the colour code over 8 |
| Piece.IsWhiteMaskTestAlways | ConsoleApp/Chess/Piece.cs:45-48 | under the White = 0 reconciliation, `(piece & White) == White` holds of every piece, so the engine's white test reads the black bit instead |
| Piece.GetPromotionType | ConsoleApp/Chess/Piece.cs:70-77 | a knight, bishop, rook or queen for the four promotion flags, and None for every other flag |
| Piece.GetPromotionFlag | ConsoleApp/Chess/Piece.cs:79-86 | the promotion flag of a knight, bishop, rook or queen, which maps back to that type, and 0 for every other type |
| Piece.PromotionRoundTrip | ConsoleApp/Chess/Piece.cs:70-86 | the two promotion maps are inverse on the four promotion flags |
| Piece.GetPieceType | ConsoleApp/Chess/Piece.cs:88-91 | the position of the lower-cased letter in `_pkn_brq`, or -1 when it is not there |
| Piece.SymbolRoundTrip | ConsoleApp/Chess/Piece.cs:88-101 | for each of the twelve piece letters, `GetPiece` gives a piece whose symbol is that letter and whose type is `GetPieceType` of it |
| Piece.LetterAt | ConsoleApp/Chess/Piece.cs:93-101 | every real piece code below 16 is read back from its own letter |
| Piece.FirstLetters | ConsoleApp/Chess/Piece.cs:22-23 | each piece letter occurs first at its own position in the symbol strings |
| Piece.SymbolOf | ConsoleApp/Chess/Piece.cs:98-101 | the symbol of a piece code below 16 is upper case for white and lower case for black, at the type's position |
| Piece.MaskTestLosesColour | ConsoleApp/Chess/Piece.cs:98-101 | under the White = 0 reconciliation, a symbol chosen by the `& White` test would print a black pawn as `P` |
| Flags.MoveFlagBits | ConsoleApp/Chess/Flags.cs:7-15 | the eight move flags are the bits 0..7, one each, so no two share a bit |
| Flags.CastlingBits | ConsoleApp/Chess/Flags.cs:17-24 | the four castling rights are bits 0..3, the white and black groups are their unions, disjoint, and all castlings is the union of the groups |
| Flags.PowersOfTwo | ConsoleApp/Chess/Flags.cs:8-15 | the flag values are the powers of two 1..128 |
| Flags.DistinctBits | ConsoleApp/Chess/Flags.cs:7-24 | two distinct single-bit flags share no bit |
| MoveFlags.MoveFlagBits | ConsoleApp/Chess/MoveFlags.cs:5-13 | the eight move flags are the bits 0..7, and the four promotion flags together are the low four bits |
| MoveFlags.AgreesWithFlags | ConsoleApp/Chess/MoveFlags.cs:5-13 | the two flag files agree on the six non-castling flags and swap the two castling flags |
| Moves.NewQuietMove | ConsoleApp/Chess/Move.cs:156-159 | the four-argument constructor makes a move with no flag: no promotion, castling, double push or en passant |
| Moves.Pack | ConsoleApp/Chess/Move.cs:161-166 | `piece << 6` or-ed with `square` is `64 * piece + square` for a piece below 32 and a square below 64 |
| Moves.Unpack | ConsoleApp/Chess/Move.cs:14-63 | the square mask, the piece mask and the colour mask read the square, the piece and the piece's colour back out of a packed number |
| Moves.PackRoundTrip | ConsoleApp/Chess/Move.cs:25-63 | a constructed move gives back its starting square, target square, both pieces, the friendly colour and the flag |
| Moves.OpponentColourFlips | ConsoleApp/Chess/Move.cs:57-71 | the friendly colour is one of 0, 8, 16, 24, and the opponent colour is its complement in the two colour bits |
| Moves.PromotionFlags | ConsoleApp/Chess/Move.cs:73-79 | a move is a promotion exactly when one of the four low flag bits is set; a named promotion type implies a promotion, and for a single flag the two agree |
| Moves.CastlingFlags | ConsoleApp/Chess/Move.cs:81-103 | a move is castling exactly when its flag is at least 64; for a single flag, exactly when it is queenside or kingside castling |
| Moves.CastlingRookSquareSpec | ConsoleApp/Chess/Move.cs:133-141 | the rook square is a1 or a8 for queenside, h1 or h8 for kingside, by the mover's colour, and -1 for every other move |
| PrecomputedMoveData.DirectionSteps | ConsoleApp/Chess/PrecomputedMoveData.cs:5-6 | each direction offset is eight times its rank step plus its file step, and the even directions (S, W, SW, SE) are the negative offsets |
| PrecomputedMoveData.FileMaskAt | ConsoleApp/Chess/PrecomputedMoveData.cs:22-29 | file mask `f` holds exactly the squares of file `f` |
| PrecomputedMoveData.RankMaskAt | ConsoleApp/Chess/PrecomputedMoveData.cs:31-38 | rank mask `r` holds exactly the squares of rank `r` |
| PrecomputedMoveData.NotFileAt | ConsoleApp/Chess/PrecomputedMoveData.cs:54-70 | the complement of a file mask holds every square off that file |
| PrecomputedMoveData.CastlingsAt | ConsoleApp/Chess/PrecomputedMoveData.cs:14-20 | each castling mask holds exactly the two squares between king and rook that the king crosses or the rook needs: f1 g1, c1 d1, f8 g8, c8 d8 |
| PrecomputedMoveData.CastlingsRange | ConsoleApp/Chess/PrecomputedMoveData.cs:14-20 | each castling mask is a run of bits, a difference of two powers of two |
| PrecomputedMoveData.SignShift | ConsoleApp/Chess/PrecomputedMoveData.cs:79-80 | `x >> 31` on an `int` is -1 for a negative `x` and 0 otherwise |
| PrecomputedMoveData.BranchFree | ConsoleApp/Chess/PrecomputedMoveData.cs:78-85 | the branch-free `n` and `s` are the negative and the positive part of `d` |
| PrecomputedMoveData.PawnPushExact | ConsoleApp/Chess/PrecomputedMoveData.cs:46-50 | a push pattern holds exactly the square one rank forward for the colour, and nothing from the last rank |
| PrecomputedMoveData.PawnCaptureExact | ConsoleApp/Chess/PrecomputedMoveData.cs:52-56 | a capture pattern holds exactly the squares one rank forward and one file to either side, with no wrap across the board's edge |
| PrecomputedMoveData.KingExact | ConsoleApp/Chess/PrecomputedMoveData.cs:58-60 | a king pattern holds exactly the squares one king step away |
| PrecomputedMoveData.KnightExact | ConsoleApp/Chess/PrecomputedMoveData.cs:62-71 | a knight pattern holds exactly the squares one knight jump away |
| PrecomputedMoveData.Rays | ConsoleApp/Chess/PrecomputedMoveData.cs:73-101 | a square has eight rays, one per direction |
| PrecomputedMoveData.SouthRayAt | ConsoleApp/Chess/PrecomputedMoveData.cs:73 | the south ray holds the squares below on the same file |
| PrecomputedMoveData.NorthRayAt | ConsoleApp/Chess/PrecomputedMoveData.cs:74 | the north ray holds the squares above on the same file |
| PrecomputedMoveData.WestRayAt | ConsoleApp/Chess/PrecomputedMoveData.cs:75 | the west ray holds the squares to the left on the same rank |
| PrecomputedMoveData.EastRayAt | ConsoleApp/Chess/PrecomputedMoveData.cs:76 | the east ray holds the squares to the right on the same rank |
| PrecomputedMoveData.DiagonalAt | ConsoleApp/Chess/PrecomputedMoveData.cs:78-81 | the shifted diagonal holds the squares whose file minus rank equals the square's |
| PrecomputedMoveData.AntiDiagonalAt | ConsoleApp/Chess/PrecomputedMoveData.cs:83-86 | the shifted anti-diagonal holds the squares whose file plus rank equals the square's |
| PrecomputedMoveData.RayExact | ConsoleApp/Chess/PrecomputedMoveData.cs:73-101 | every ray pattern holds exactly the squares reached from the square by one or more steps of its direction without leaving the board |
| PrecomputedMoveData.RayOrder | ConsoleApp/Chess/PrecomputedMoveData.cs:5-6 | the odd directions reach only higher squares and the even directions only lower ones |
| PrecomputedMoveData.RayNesting | ConsoleApp/Chess/PrecomputedMoveData.cs:91-101 | the ray from a square `b` on a ray is the part of that ray beyond `b` |
| PrecomputedMoveData.PawnPushes | ConsoleApp/Chess/PrecomputedMoveData.cs:46-50 | a square has one push pattern per colour |
| PrecomputedMoveData.PawnCaptures | ConsoleApp/Chess/PrecomputedMoveData.cs:52-56 | a square has one capture pattern per colour |
| PrecomputedMoveData.PushRowHolds | ConsoleApp/Chess/PrecomputedMoveData.cs:46-50 | the push row of a square holds, per colour, exactly the pawn's push square |
| PrecomputedMoveData.FillSquare | ConsoleApp/Chess/PrecomputedMoveData.cs:42-102 | one pass of the loop fills every table's entry for the square with exactly the squares of its move set, and leaves the other entries alone |
| PrecomputedMoveData.Tables.constructor | ConsoleApp/Chess/PrecomputedMoveData.cs:40-103 | after the static constructor, every entry of the five tables holds exactly the squares its move set names |
| Bitboard.BitsTable | ConsoleApp/Chess/Bitboard.cs:9-18 | entry `i` of the table is 2^i |
| Bitboard.SingleSquare | ConsoleApp/Chess/Bitboard.cs:9-18 | 2^i is `1UL << i`, the board holding square `i` alone |
| Bitboard.TrailingZeroCount | ConsoleApp/Chess/Bitboard.cs:22 | 64 exactly for the empty board, otherwise the position of the lowest set square |
| Bitboard.LeadingZeroCount | ConsoleApp/Chess/Bitboard.cs:27 | 64 exactly for the empty board, otherwise 63 minus the position of the highest set square |
| Bitboard.BitScanForward | ConsoleApp/Chess/Bitboard.cs:20-23 | -1 for the empty board, otherwise the lowest square in it |
| Bitboard.BitScanReverse | ConsoleApp/Chess/Bitboard.cs:25-28 | -1 for the empty board, otherwise the highest square in it |
| Bitboard.XorSixtyThree | ConsoleApp/Chess/Bitboard.cs:27 | for an index in 0..63, `x ^ 63` is `63 - x` |
| Bitboard.SetSpec | ConsoleApp/Chess/Bitboard.cs:30-33 | `Set` adds the square and keeps every other bit |
| Bitboard.ToggleSpec | ConsoleApp/Chess/Bitboard.cs:35-38 | `Toggle` flips the square and keeps every other bit |
| Bitboard.ResetSpec | ConsoleApp/Chess/Bitboard.cs:40-43 | `Reset` removes the square and keeps every other bit |
| Bitboard.ClearLowest | ConsoleApp/Chess/Bitboard.cs:50 | `b & (b - 1)` is `b` without its lowest square |
| Bitboard.SquaresExact | ConsoleApp/Chess/Bitboard.cs:45-53 | the enumerated squares are exactly the squares of the board, each once, ascending |
| Bitboard.SquaresSplit | ConsoleApp/Chess/Bitboard.cs:47-52 | one step of the enumeration yields the lowest square and continues with a smaller board without it |
| Bitboard.Enumerate | ConsoleApp/Chess/Bitboard.cs:45-53 | the loop yields exactly the squares of the board, in ascending order |
| Zobrist.EnpassantIndex | ConsoleApp/Chess/ZobristKey.cs:42 | the en-passant key index is in 0..8, 8 exactly for "no square", and the file of the square otherwise |
| Zobrist.FileBitsOf | ConsoleApp/Chess/ZobristKey.cs:42 | `x & 7` lies in 0..7 and is the file of a square |
| Zobrist.Create | ConsoleApp/Chess/ZobristKey.cs:35-50 | the loop's key is the xor of the piece keys of the non-empty squares, the en-passant key, the Black-to-move key when Black moves, and the castling key |
| Zobrist.EmptySquaresIgnored | ConsoleApp/Chess/ZobristKey.cs:38-40 | two mailboxes that differ only in which empty code an empty square holds have the same piece key |
| Zobrist.PlacePiece | ConsoleApp/Chess/ZobristKey.cs:38-40 | putting a piece on an empty square changes the key by exactly that square's piece key |
| Zobrist.SideToMove | ConsoleApp/Chess/ZobristKey.cs:44-45 | the keys of the same position with White and with Black to move differ by the Black-to-move key alone |
| UniversalChessInterface.GetSquareFromUci | ConsoleApp/Chess/UniversalChessInterface.cs:8-18 | a name not two characters long reads as -1; for a two-character name, lower-cased and stripped of `char.IsWhiteSpace` characters at both ends, one that trims to nothing, or to a lone file letter, throws, and one that trims to a single other character reads as -1; every number read fits an `int` |
| UniversalChessInterface.FileBits | ConsoleApp/Chess/UniversalChessInterface.cs:25 | `squareIndex & 7` is a file, 0..7 |
| UniversalChessInterface.SquareName | ConsoleApp/Chess/UniversalChessInterface.cs:20-26 | the name of a square is its file letter followed by its rank digit |
| UniversalChessInterface.SquareNameShape | ConsoleApp/Chess/UniversalChessInterface.cs:20-26 | every square's name is a letter a..h followed by a digit 1..8 |
| UniversalChessInterface.NoSquareName | ConsoleApp/Chess/UniversalChessInterface.cs:22-23 | a number with bit 6 set, -1 among them, is named "-" |
| UniversalChessInterface.MinusOneName | ConsoleApp/Chess/UniversalChessInterface.cs:22-23 | the "no square" value -1 is named "-" |
| UniversalChessInterface.NoBreakSpaceThrows | ConsoleApp/Chess/UniversalChessInterface.cs:13-15 | "a" followed by a no-break space trims to "a", so reading its rank digit throws IndexOutOfRangeException |
| UniversalChessInterface.ReadSquare | ConsoleApp/Chess/UniversalChessInterface.cs:8-18 | a name not of length two reads as -1; a two-character name with no `char.IsWhiteSpace` character (the Unicode spaces such as U+00A0 included) reads as its rank digit's offset times 8 plus its file, or -1 when its first letter is no file |
| UniversalChessInterface.FileLetter | ConsoleApp/Chess/UniversalChessInterface.cs:6 | the file letters are distinct lower-case letters, each found at its own position |
| UniversalChessInterface.ReadName | ConsoleApp/Chess/UniversalChessInterface.cs:8-18 | the name made of file letter `f` and rank digit `r + 1` reads as square `8 * r + f` |
| UniversalChessInterface.SquareRoundTrip | ConsoleApp/Chess/UniversalChessInterface.cs:8-26 | reading the name of a square gives the square back |
| UniversalChessInterface.NameRoundTrip | ConsoleApp/Chess/UniversalChessInterface.cs:8-26 | a file letter and rank digit name a square whose name is that text |
| UniversalChessInterface.MoveText | ConsoleApp/Chess/Move.cs:143-149 | a move's text is the names of its two squares, then one lower-case letter for a promotion, which reads back as the promotion type |
| UniversalChessInterface.BareSymbolUpperCase | ConsoleApp/Chess/Move.cs:143-149 | under the White = 0 reconciliation the bare-type symbol would give "e7e8Q"; the lower-case letter gives "e7e8q" as the protocol writes it |
| UniversalChessInterface.QueenPromotionMove | ConsoleApp/Chess/Move.cs:161-166 | the move built from e7, e8 and the queen flag has those squares and that flag |
| UniversalChessInterface.OnBoardBitClear | ConsoleApp/Chess/UniversalChessInterface.cs:36 | a square's bit 6 is clear, so the test lets it through |
| UniversalChessInterface.UciReadsMove | ConsoleApp/Chess/UniversalChessInterface.cs:28-80 | the text of a non-promotion move reads back as that move exactly when its flag is the one guessed from the king's square, the en-passant square and the pawn's step |
| UniversalChessInterface.FourCharacters | ConsoleApp/Chess/UniversalChessInterface.cs:40-60 | four characters naming two squares read as the move between them, with the pieces from the mailbox and the guessed flag |
| UniversalChessInterface.FlagDecides | ConsoleApp/Chess/Move.cs:161-166 | two moves built from the same squares and pieces are equal exactly when their flags are |
| UniversalChessInterface.UciReadsPromotion | ConsoleApp/Chess/UniversalChessInterface.cs:62-72 | the text of a promotion always reads back as that move |
| UniversalChessInterface.Names | ConsoleApp/Chess/UniversalChessInterface.cs:33-37 | the two names in a move's text read back as its squares and pass the bit-6 test |
| UniversalChessInterface.OffBoardNameThrows | ConsoleApp/Chess/UniversalChessInterface.cs:33-37 | as written, "aab1" reads its first name as 384, which passes the bit-6 test, so reading the mailbox there throws IndexOutOfRangeException |
| UniversalChessInterface.NameOffBoard | ConsoleApp/Chess/UniversalChessInterface.cs:36-79 | any two names that pass the bit-6 test with the first off the board make the reading throw |
| UniversalChessInterface.Bit6Clear384 | ConsoleApp/Chess/UniversalChessInterface.cs:36 | bit 6 of 384 is clear |
| UniversalChessInterface.CheckedOnlyNamesThrow | ConsoleApp/Chess/UniversalChessInterface.cs:28-80 | with the test corrected to "both numbers are squares", every exception comes from reading a name |
| UniversalChessInterface.NamesOnlyThrow | ConsoleApp/Chess/UniversalChessInterface.cs:33-37 | with the corrected test, the move is read without exception once both names are read |
| ForsythEdwardsNotation.Fields | ConsoleApp/Chess/ForsythEdwardsNotation.cs:13 | splitting the text at spaces gives at least one field |
| ForsythEdwardsNotation.RightsRead | ConsoleApp/Chess/ForsythEdwardsNotation.cs:30-33 | after `n` letters of `KQkq`, bit `k` is set exactly for the letters among them that the field contains |
| ForsythEdwardsNotation.ReadCastlings | ConsoleApp/Chess/ForsythEdwardsNotation.cs:28-34 | the castling rights are below 16, with bit `i` set exactly when the field contains the `i`-th letter of `KQkq` |
| ForsythEdwardsNotation.MailboxOf | ConsoleApp/Chess/ForsythEdwardsNotation.cs:67 | the mailbox after the placement holds one piece code below 16 per square |
| ForsythEdwardsNotation.PieceBoardsOf | ConsoleApp/Chess/ForsythEdwardsNotation.cs:69-70 | there is one bitboard per piece code |
| ForsythEdwardsNotation.ColourBoardsOf | ConsoleApp/Chess/ForsythEdwardsNotation.cs:71 | there is one bitboard per colour |
| ForsythEdwardsNotation.KingsOf | ConsoleApp/Chess/ForsythEdwardsNotation.cs:73-74 | the king squares are one per colour, each a square |
| ForsythEdwardsNotation.RankPrefix | ConsoleApp/Chess/ForsythEdwardsNotation.cs:54-76 | the pieces of a prefix of a rank's text come first, in order |
| ForsythEdwardsNotation.PlacementsPrefix | ConsoleApp/Chess/ForsythEdwardsNotation.cs:51-77 | the pieces of the first ranks come first, in order |
| ForsythEdwardsNotation.RankStep | ConsoleApp/Chess/ForsythEdwardsNotation.cs:56-75 | a digit moves the file on by its value and places nothing; any other character places `GetPiece` of it on the current square and moves the file on by one |
| ForsythEdwardsNotation.CastlingsOf | ConsoleApp/Chess/ForsythEdwardsNotation.cs:28-34 | the castling rights read are below 16 |
| ForsythEdwardsNotation.Loaded | ConsoleApp/Chess/ForsythEdwardsNotation.cs:8-82 | the loaded position is consistent: well formed, each king on a square or off the board, and the occupied set the union of the colour bitboards (that the views describe the same pieces is `LoadedAgrees`) |
| ForsythEdwardsNotation.WritesAgree | ConsoleApp/Chess/ForsythEdwardsNotation.cs:63-71 | writes of real pieces to distinct squares leave each piece bitboard holding exactly the squares where the mailbox has that piece, and each colour bitboard exactly the squares holding a piece of that colour |
| ForsythEdwardsNotation.LoadedAgrees | ConsoleApp/Chess/ForsythEdwardsNotation.cs:50-77 | when the placement field puts real pieces on distinct squares, the mailbox, the piece bitboards and the colour bitboards of the loaded position describe the same pieces |
| ForsythEdwardsNotation.ReadSide | ConsoleApp/Chess/ForsythEdwardsNotation.cs:21-26 | White moves unless the second field is exactly "b"; the colour and the colour index follow |
| ForsythEdwardsNotation.ReadRights | ConsoleApp/Chess/ForsythEdwardsNotation.cs:28-39 | the castling rights of the third field; the en-passant square read from the fourth field, or -1 without one; an IndexOutOfRangeException exactly when that name throws |
| ForsythEdwardsNotation.ReadCounters | ConsoleApp/Chess/ForsythEdwardsNotation.cs:41-49 | each counter is its field's value when the field is there and parses as an `int`, and stays 0 otherwise |
| ForsythEdwardsNotation.Put | ConsoleApp/Chess/ForsythEdwardsNotation.cs:63-74 | one piece goes into the mailbox, its piece and colour bitboards and, for a king, the king squares |
| ForsythEdwardsNotation.PlaceChar | ConsoleApp/Chess/ForsythEdwardsNotation.cs:54-76 | one character of a rank is placed; it fails exactly when it would write off the board |
| ForsythEdwardsNotation.PlaceRank | ConsoleApp/Chess/ForsythEdwardsNotation.cs:53-76 | a rank is placed exactly when every one of its pieces lands on the board |
| ForsythEdwardsNotation.Place | ConsoleApp/Chess/ForsythEdwardsNotation.cs:51-77 | the eight ranks, the eighth first, are placed exactly when every piece lands on the board |
| ForsythEdwardsNotation.Finish | ConsoleApp/Chess/ForsythEdwardsNotation.cs:79-81 | the occupied set is the union of the colour bitboards, the board is valid and the position key is the key of the position |
| ForsythEdwardsNotation.HeaderShaped | ConsoleApp/Chess/ForsythEdwardsNotation.cs:19-77 | once the header is read and the pieces are down, the board is well formed |
| ForsythEdwardsNotation.LoadedBoard | ConsoleApp/Chess/ForsythEdwardsNotation.cs:19-79 | with the occupied set filled in, the board holds the loaded position |
| ForsythEdwardsNotation.ResetBoard | ConsoleApp/Chess/ForsythEdwardsNotation.cs:19 | `Reset` leaves fresh empty arrays, White to move, no castling rights, no en-passant square and both counters 0 |
| ForsythEdwardsNotation.ReadHeader | ConsoleApp/Chess/ForsythEdwardsNotation.cs:21-49 | the header fields are read into the board; it throws exactly when the en-passant name does |
| ForsythEdwardsNotation.Start | ConsoleApp/Chess/ForsythEdwardsNotation.cs:19-49 | the board is emptied and the header read; it throws exactly when the en-passant name does |
| ForsythEdwardsNotation.LoadPieces | ConsoleApp/Chess/ForsythEdwardsNotation.cs:51-81 | the pieces are placed exactly when none lands off the board; then the board is valid, holds the loaded position and its key |
| ForsythEdwardsNotation.Load | ConsoleApp/Chess/ForsythEdwardsNotation.cs:19-81 | an IndexOutOfRangeException exactly when the en-passant name throws or a piece lands off the board; otherwise the board is valid, holds the loaded position, has no history and carries the position's key; when the placement puts real pieces on distinct squares, the mailbox and the bitboards agree |
| ForsythEdwardsNotation.LoadFen | ConsoleApp/Chess/ForsythEdwardsNotation.cs:8-82 | a text shorter than 15 characters, or without eight ranks, leaves the board unchanged; otherwise as `Load`, the agreement of the mailbox and the bitboards included |
| Attacks.SlidingAttackExact | ConsoleApp/Chess/MoveGenerator.cs:139-143 | a ray cut at its first blocker holds exactly the squares the slider reaches: along the ray, up to and including the first occupied square |
| Attacks.RayReversed | ConsoleApp/Chess/MoveGenerator.cs:171-181 | `t` is on the ray from `square` exactly when `square` is on the opposite ray from `t` |
| Attacks.BetweenReversed | ConsoleApp/Chess/MoveGenerator.cs:171-181 | the squares between two squares on a ray are the same seen from either end |
| Attacks.ReachesReversed | ConsoleApp/Chess/MoveGenerator.cs:171-181 | a slider on `square` reaches `t` exactly when one on `t` reaches `square` the opposite way |
| Attacks.StepPatternExact | ConsoleApp/Chess/MoveGenerator.cs:127-134 | a pawn-capture, king or knight table entry holds exactly the squares that piece hits |
| Attacks.StepAdded | ConsoleApp/Chess/MoveGenerator.cs:128 | or-ing in a table entry adds exactly its squares |
| Attacks.StepEnumerated | ConsoleApp/Chess/MoveGenerator.cs:127-134 | the enumerated squares of a piece board attack exactly what the set of pieces attacks |
| Attacks.AddStepAttacks | ConsoleApp/Chess/MoveGenerator.cs:127-134 | one `foreach` adds exactly the squares the pieces of one kind attack |
| Attacks.AddRays | ConsoleApp/Chess/MoveGenerator.cs:137-146 | the inner loop adds exactly the squares a slider on the square reaches in the given directions |
| Attacks.SlideEnumerated | ConsoleApp/Chess/MoveGenerator.cs:136-158 | the enumerated squares of the union of `a` and `b` attack exactly what the sliders attack |
| Attacks.AddSlidingAttacks | ConsoleApp/Chess/MoveGenerator.cs:136-158 | one sliding `foreach` adds exactly the squares the bishops (or rooks) and queens reach |
| Attacks.GenerateOpponentAttacks | ConsoleApp/Chess/MoveGenerator.cs:122-161 | the attack map holds exactly the squares the side not to move attacks |
| Attacks.HitsSymmetric | ConsoleApp/Chess/MoveGenerator.cs:165 | a piece of one colour on `s` hits `t` exactly when the same piece of the other colour on `t` hits `s`, which is why the pawn test uses the other colour's pattern |
| Attacks.AndNonZero | ConsoleApp/Chess/MoveGenerator.cs:165-184 | two bitboards meet exactly when they share a square |
| Attacks.StepSeen | ConsoleApp/Chess/MoveGenerator.cs:165-169 | the other colour's pattern from the square meets the pieces exactly when one of them attacks the square |
| Attacks.RaySeen | ConsoleApp/Chess/MoveGenerator.cs:173-180 | the cut ray from the square meets the sliders exactly when one of them sees the square along that ray |
| Attacks.SlideSeen | ConsoleApp/Chess/MoveGenerator.cs:171-181 | rooks or bishops with queens attack the square exactly when one of them sees it along one of the four rays |
| Attacks.AttackedSeen | ConsoleApp/Chess/MoveGenerator.cs:163-187 | a square is attacked exactly when a pawn, a knight, a slider along one of the eight rays or the king attacks it |
| Attacks.RaysMeetSliders | ConsoleApp/Chess/MoveGenerator.cs:171-181 | the ray loop answers true exactly when a slider sees the square along some ray |
| Attacks.IsAttacked | ConsoleApp/Chess/MoveGenerator.cs:163-187 | true exactly when the colour attacks the square, the same relation `GenerateOpponentAttacks` computes |
| MoveGenerator.Built | ConsoleApp/Chess/Move.cs:161-166 | a move built by the generator gives back its squares, pieces and flag |
| MoveGenerator.Readable | ConsoleApp/Chess/MoveGenerator.cs:7-120 | a valid board gives the generator what it reads: table sizes, a mailbox, the side to move and its index, the rights, the occupied set as the union of the colours, the kings, and an attack map holding exactly the squares the other side attacks |
| MoveGenerator.NoFriendlyLanding | ConsoleApp/Chess/MoveGenerator.cs:16-120 | on a position whose views agree, no generated move ends on a square holding a piece of the side to move |
| MoveGenerator.PawnLandsFree | ConsoleApp/Chess/MoveGenerator.cs:34-66 | no pawn push or capture ends on a friendly piece |
| MoveGenerator.CastlingLandsFree | ConsoleApp/Chess/MoveGenerator.cs:76-86 | a castling the tests allow ends on an empty square |
| MoveGenerator.GenerateMoves | ConsoleApp/Chess/MoveGenerator.cs:7-14 | every move starts on a square of the side to move, carries the piece there and is one the per-piece description allows; every move the description allows from a friendly square is in the list |
| MoveGenerator.CoveredAppend | ConsoleApp/Chess/MoveGenerator.cs:10-11 | adding the moves of the next square keeps every square so far covered |
| MoveGenerator.CoveredAll | ConsoleApp/Chess/MoveGenerator.cs:10-11 | after the loop every friendly square is covered, since `Enumerate` yields exactly the friendly squares |
| MoveGenerator.GeneratedAppend | ConsoleApp/Chess/MoveGenerator.cs:10-11 | adding the moves of one more friendly square keeps every move allowed |
| MoveGenerator.GenerateMovesFrom | ConsoleApp/Chess/MoveGenerator.cs:16-32 | the moves from one square start there with the piece there, and land on a target with a flag exactly when the description allows it: nothing for the other side's piece or an empty square, and for each type the moves of its generator |
| MoveGenerator.PawnLands | ConsoleApp/Chess/MoveGenerator.cs:34-66 | the pawn's moves land exactly where the description allows |
| MoveGenerator.KingLands | ConsoleApp/Chess/MoveGenerator.cs:68-89 | the king's moves land exactly where the description allows |
| MoveGenerator.CastlingFields | ConsoleApp/Chess/MoveGenerator.cs:82-85 | a castling move starts on the king's square, carries the king and has the castling flag of its side |
| MoveGenerator.AddMoves | ConsoleApp/Chess/MoveGenerator.cs:73-74 | the `foreach` over a target set yields one unflagged move per target square, naming the piece on it, and nothing else |
| MoveGenerator.OnBoard | ConsoleApp/Chess/Bitboard.cs:45-53 | the enumeration yields squares only |
| MoveGenerator.MoveTo | ConsoleApp/Chess/MoveGenerator.cs:74 | `new Move(s, t, piece, squares[t])` has those fields and no flag |
| MoveGenerator.Enumerated | ConsoleApp/Chess/MoveGenerator.cs:95-96 | after the shared loop the moves go to exactly the enumerated squares |
| MoveGenerator.GenerateKnightMoves | ConsoleApp/Chess/MoveGenerator.cs:91-99 | exactly one unflagged move to each knight jump not holding a friendly piece |
| MoveGenerator.CastlingFlag | ConsoleApp/Chess/MoveFlags.cs:12-13 | the corrected castling flags are move flags, not None |
| MoveGenerator.CastlingFlagAsWritten | ConsoleApp/Chess/MoveGenerator.cs:82-85 | the flags the generator passes, from Flags.cs, are neither None nor the flag `Move` reads for that side |
| MoveGenerator.CastlingFlagsSwapped | ConsoleApp/Chess/MoveGenerator.cs:82 | as written, the kingside castling e1g1 is read by `Move` as a queenside castling with its rook on a1 (a8 for Black) |
| MoveGenerator.CastlingFlagsRead | ConsoleApp/Chess/Move.cs:89-141 | with the corrected flags, a castling reads as the side it goes to, with the rook on h1, a1, h8 or a8 |
| MoveGenerator.CastlingTextReadsBack | ConsoleApp/Chess/UniversalChessInterface.cs:40-50 | with the corrected flags, the text of a castling reads back as that move |
| MoveGenerator.CastlingTextAsWritten | ConsoleApp/Chess/UniversalChessInterface.cs:40-50 | as written, the text of the generated kingside castling does not read back as the generated move |
| MoveGenerator.GenerateKingMoves | ConsoleApp/Chess/MoveGenerator.cs:68-89 | one unflagged move to each king step that holds no friendly piece and is not attacked; each castling is there exactly when its tests pass |
| MoveGenerator.KingTargets | ConsoleApp/Chess/MoveGenerator.cs:71 | the masked king pattern holds exactly the king steps that are neither friendly nor attacked |
| MoveGenerator.GenerateCastlings | ConsoleApp/Chess/MoveGenerator.cs:76-86 | each castling is generated exactly when the king is not attacked, the right is held, the two path squares are empty and not attacked, and for the queenside the square next to the rook is empty |
| MoveGenerator.CastlingTestsRead | ConsoleApp/Chess/MoveGenerator.cs:76-85 | on a valid board the bit tests say what the castling description states |
| MoveGenerator.Castle | ConsoleApp/Chess/MoveGenerator.cs:76-86 | the castling branch yields each castling exactly when its bit tests pass |
| MoveGenerator.CastlingAllowed | ConsoleApp/Chess/MoveGenerator.cs:81 | the right is held and both path squares are empty and not attacked |
| MoveGenerator.LandsAppend | ConsoleApp/Chess/MoveGenerator.cs:11 | a move is in a concatenation exactly when it is in one of its parts |
| MoveGenerator.TestBit | ConsoleApp/Chess/MoveGenerator.cs:76 | `((a >> k) & 1) == 0` tests square `k` modulo 64 |
| MoveGenerator.RightHeld | ConsoleApp/Chess/MoveGenerator.cs:81-84 | `(castlings & (1 << i)) != 0` tests right `i` |
| MoveGenerator.PathClear | ConsoleApp/Chess/MoveGenerator.cs:81-84 | the path mask survives the mask with the occupied and attacked squares cleared exactly when its two squares are empty and not attacked |
| MoveGenerator.GenerateSlidingMoves | ConsoleApp/Chess/MoveGenerator.cs:101-120 | exactly one unflagged move to each square the slider reaches in the given directions, first blocker included, that holds no friendly piece |
| MoveGenerator.GeneratePawnMoves | ConsoleApp/Chess/MoveGenerator.cs:34-66 | every move is a push or a capture of the pawn, and every push, double push, capture, en-passant capture and promotion the description allows is generated |
| MoveGenerator.PushMoves | ConsoleApp/Chess/MoveGenerator.cs:40-51 | the single push (four promotions on the last rank) and the double push, exactly as the description allows |
| MoveGenerator.SinglePush | ConsoleApp/Chess/MoveGenerator.cs:40 | the single push found is the one forward square when it is empty, and -1 otherwise |
| MoveGenerator.SecondPush | ConsoleApp/Chess/MoveGenerator.cs:48 | the double push found is the square two ranks forward on the side's fourth rank when both are empty, and -1 otherwise |
| MoveGenerator.CaptureMoves | ConsoleApp/Chess/MoveGenerator.cs:53-63 | every capture move names the piece on its target (none for en passant), and every capture the description allows is generated |
| MoveGenerator.CaptureStep | ConsoleApp/Chess/MoveGenerator.cs:53-63 | one turn of the capture loop keeps both loop invariants |
| MoveGenerator.CapturesFound | ConsoleApp/Chess/MoveGenerator.cs:53-63 | after the loop every capture target is covered |
| MoveGenerator.CaptureTargets | ConsoleApp/Chess/MoveGenerator.cs:53 | the enumerated capture mask holds exactly the attacked squares holding an opponent piece, and the en-passant square |
| MoveGenerator.CaptureTo | ConsoleApp/Chess/MoveGenerator.cs:55-62 | one target yields the en-passant capture, the four promotions, or the plain capture, as the description allows |
| MoveGenerator.NoDoublePush | ConsoleApp/Chess/MoveGenerator.cs:42-51 | a pawn about to promote has no double push |
| MoveGenerator.AddPromotions | ConsoleApp/Chess/MoveGenerator.cs:43 | the loop adds one move per promotion flag, to the same target, and keeps the earlier moves |
| MoveGenerator.PromotionFlag | ConsoleApp/Chess/MoveGenerator.cs:43 | `1 << promotion` for the four turns is a promotion flag |
| MoveGenerator.PromotedAll | ConsoleApp/Chess/MoveGenerator.cs:43 | the four turns give the contract of `AddPromotions` |
| MoveGenerator.ZeroBitsAll | ConsoleApp/Chess/MoveGenerator.cs:53 | the empty board has no squares |
| ChessBoard.RightAt | ConsoleApp/Chess/Board.cs:169-179 | the castling right tied to a square is the right of the rook standing in that corner (a1, h1, a8, h8) and none for every other square |
| ChessBoard.DropRightBits | ConsoleApp/Chess/Board.cs:169-179 | clearing the right of a corner square keeps exactly the rights held that are not the right of that corner |
| ChessBoard.DropSideBits | ConsoleApp/Chess/Board.cs:238-243 | a king move or a castling keeps exactly the rights held that do not belong to the side to move |
| ChessBoard.MoveCastlingsBits | ConsoleApp/Chess/Board.cs:160-255 | a move never adds a castling right, and it keeps every right that is not the mover's own side's (on a king move), nor the right of its starting or ending corner |
| ChessBoard.ApplyTwice | ConsoleApp/Chess/Board.cs:153-158 | running the same exclusive-or statements on the bitboards twice leaves every bitboard as it was |
| ChessBoard.ApplySnoc | ConsoleApp/Chess/Board.cs:153-158 | one more `bitboards[i] ^= bits` statement changes entry i alone, by that exclusive or |
| ChessBoard.AfterMoveAsWritten | ConsoleApp/Chess/Board.cs:138-272 | the position the board makes with the queenside rook taken from `End - 1`, as written; it is well formed |
| ChessBoard.AfterMove | ConsoleApp/Chess/Board.cs:138-272 | the position after a move with the queenside rook taken from its corner, `End - 2`; it is well formed |
| ChessBoard.AfterTakeback | ConsoleApp/Chess/Board.cs:274-368 | the position after taking back the last history entry; it is well formed |
| ChessBoard.MoveFields | ConsoleApp/Chess/Board.cs:138-263 | the position after a move is the mailbox, kings, piece and colour bitboards and rights its branches write, with the side to move handed over |
| ChessBoard.TakeFields | ConsoleApp/Chess/Board.cs:274-368 | the position after a takeback is the mailbox, kings and bitboards the takeback branches write |
| ChessBoard.MovePlainSquares | ConsoleApp/Chess/Board.cs:153-158 | an ordinary move empties its starting square and puts the mover on its ending square, nothing else in the mailbox changes |
| ChessBoard.MovePromotionSquares | ConsoleApp/Chess/Board.cs:182-192 | a promotion leaves the promoted piece of the mover's colour on the ending square |
| ChessBoard.MoveEnpassantSquares | ConsoleApp/Chess/Board.cs:194-204 | an en-passant capture also empties the captured pawn's square, one rank behind the en-passant square |
| ChessBoard.MoveKingsideSquares | ConsoleApp/Chess/Board.cs:206-220 | kingside castling also moves the rook from `End + 1` to `End - 1` |
| ChessBoard.MoveQueensideSquares | ConsoleApp/Chess/Board.cs:222-236 | queenside castling also moves the rook to `End + 1`, from `End - 1` as written and from `End - 2` corrected |
| ChessBoard.TakePlainSquares | ConsoleApp/Chess/Board.cs:283-315 | a takeback puts the mover back on its starting square and the captured code back on the ending square |
| ChessBoard.TakeEnpassantSquares | ConsoleApp/Chess/Board.cs:316-328 | taking back an en-passant capture also puts the other side's pawn back behind the en-passant square |
| ChessBoard.TakeKingsideSquares | ConsoleApp/Chess/Board.cs:329-343 | taking back kingside castling puts the rook back from `End - 1` to `End + 1` |
| ChessBoard.TakeQueensideSquares | ConsoleApp/Chess/Board.cs:344-358 | taking back queenside castling puts the rook back from `End + 1` to `End - 2` |
| ChessBoard.SquaresBack | ConsoleApp/Chess/Board.cs:274-368 | on a restorable move, the takeback's mailbox is the mailbox before the move |
| ChessBoard.KingsBack | ConsoleApp/Chess/Board.cs:359-363 | the takeback puts the king of the side that moved back where it stood |
| ChessBoard.PieceTogglesBack | ConsoleApp/Chess/Board.cs:298-358 | the takeback runs exactly the exclusive-or statements on the piece bitboards that the move ran |
| ChessBoard.ColourTogglesBack | ConsoleApp/Chess/Board.cs:298-358 | the same for the colour bitboards |
| ChessBoard.MakeRoundTrip | ConsoleApp/Chess/Board.cs:138-368 | making a restorable move and taking it back gives back the position exactly: mailbox, kings, bitboards, rights, en-passant square and counters |
| ChessBoard.QueensideRoundTripFails | ConsoleApp/Chess/Board.cs:222-236 | as written, queenside castling taken back leaves the rook bitboard wrong on the square `End - 1`, so the round trip does not restore the position |
| ChessBoard.RookBitsDiffer | ConsoleApp/Chess/Board.cs:225-347 | the rook move of the queenside branch as written and the rook move its takeback undoes differ on the square `End - 1` |
| ChessBoard.MovePieceBit | ConsoleApp/Chess/Board.cs:153-236 | a move that fits the position keeps each piece bitboard in step with the mailbox on every square |
| ChessBoard.MoveColourBit | ConsoleApp/Chess/Board.cs:153-236 | the same for the two colour bitboards |
| ChessBoard.MoveAgrees | ConsoleApp/Chess/Board.cs:138-272 | a move that fits keeps the mailbox, the piece bitboards and the colour bitboards describing the same pieces |
| ChessBoard.TakeAgrees | ConsoleApp/Chess/Board.cs:274-368 | the takeback of such a move restores that agreement |
| ChessBoard.CaptureTaken | ConsoleApp/Chess/Board.cs:160 | a move is a capture exactly when the piece it records on the ending square is not empty |
| ChessBoard.MoveKingsPlaced | ConsoleApp/Chess/Board.cs:238-243 | a move leaves every king on a square or off the board |
| ChessBoard.TakeKingsPlaced | ConsoleApp/Chess/Board.cs:359-363 | so does a takeback |
| ChessBoard.MoveConsistent | ConsoleApp/Chess/Board.cs:257 | after a move the occupied set is still the union of the colour bitboards and the kings stay placed |
| ChessBoard.TakeConsistent | ConsoleApp/Chess/Board.cs:274-368 | the same after a takeback |
| ChessBoard.UndoableAfterMove | ConsoleApp/Chess/Board.cs:140-148 | the history entry the move pushes fits the position the move leaves |
| ChessBoard.NothingAttacked | ConsoleApp/Chess/Board.cs:81-103 | on a board with no pieces no side attacks any square |
| ChessBoard.EmptyPosition | ConsoleApp/Chess/Board.cs:105-126 | the empty position (no pieces, White to move, no rights, no en-passant square) is consistent |
| ChessBoard.Board.constructor | ConsoleApp/Chess/Board.cs:81-103 | a new board holds the empty position with the full-move counter at 1, an empty history and the key of that position |
| ChessBoard.Board.Reset | ConsoleApp/Chess/Board.cs:105-126 | resetting gives fresh arrays holding the empty position, with the full-move counter at 0 and an empty history |
| ChessBoard.Board.IsCheck | ConsoleApp/Chess/Board.cs:44-50 | the side to move is in check exactly when the other side attacks its king's square |
| MoveGenerator.MakeUciMove | ConsoleApp/Chess/Board.cs:128-136 | the moves are generated as `GenerateMoves` promises; when none has the text, the result is false and the position, history and key are unchanged; otherwise the first move with the text is made, with the result and effect of `MakeMove(Move)`, or a throw when it is not `Playable` |
| MoveGenerator.MakeChosen | ConsoleApp/Chess/Board.cs:132-133 | a move that is not `Playable` throws; otherwise the result is whether it was legal, a legal move leaves `AfterMove` and pushes its history entry, and an illegal one is taken back |
| UniversalChessInterface.FirstNamed | ConsoleApp/Chess/Board.cs:131-133 | the index of the first move whose text is the given one, or the list's length when none is |
| ChessBoard.Board.MakeMove | ConsoleApp/Chess/Board.cs:138-272 | a legal move leaves the position `AfterMove` gives, with the queenside rook taken from the corrected square `End - 2` instead of the `End - 1` of line 225, pushes its history entry and keeps the key; the result is false exactly when the mover's king is then attacked, and then the move is taken back, restoring the position on a restorable move; the views keep agreeing |
| ChessBoard.Board.Advance | ConsoleApp/Chess/Board.cs:140-263 | making the move pushes the history entry of the old position and leaves the new position with its key |
| ChessBoard.Board.Refuse | ConsoleApp/Chess/Board.cs:265-269 | an illegal move is taken back: the history is popped, the key restored, and a restorable move leaves the old position |
| ChessBoard.Board.Record | ConsoleApp/Chess/Board.cs:140-148 | the history gains one entry holding the key, the move, the rights, the en-passant square and both counters |
| ChessBoard.Board.Count | ConsoleApp/Chess/Board.cs:150-151 | the half-move counter counts up on a quiet move and restarts at 0 otherwise; the full-move counter counts up after Black moves |
| ChessBoard.Board.Pass | ConsoleApp/Chess/Board.cs:257-261 | the occupied set becomes the union of the colours, a double pawn push sets the en-passant square behind the pawn, and the side to move changes |
| ChessBoard.Board.Turn | ConsoleApp/Chess/Board.cs:259-261 | the side to move flips between White and Black and the friendly index follows it |
| ChessBoard.Board.Attack | ConsoleApp/Chess/Board.cs:262 | the attack map is recomputed for the new side to move, leaving the position as it was |
| ChessBoard.Board.Rekey | ConsoleApp/Chess/Board.cs:263 | the key becomes the hash of the new position |
| ChessBoard.Board.MovePieces | ConsoleApp/Chess/Board.cs:153-180 | the mover leaves its square for the ending square in the mailbox and in the bitboards, a captured piece leaves its bitboards, and a captured rook takes its corner's right |
| ChessBoard.Board.MovePromotion | ConsoleApp/Chess/Board.cs:182-192 | after the promotion branch the board holds the arrays and rights `AfterMove` gives: the pawn's bit cleared and the promoted piece of the mover's colour on the ending square |
| ChessBoard.Board.MoveEnpassant | ConsoleApp/Chess/Board.cs:194-204 | after the en-passant branch the board holds the arrays `AfterMove` gives: the other side's pawn behind the en-passant square is gone from the mailbox and from its bitboards |
| ChessBoard.Board.MoveKingside | ConsoleApp/Chess/Board.cs:206-220 | after the kingside branch the board holds the arrays and rights `AfterMove` gives: the rook moved from `End + 1` to `End - 1`, the king's square recorded and both rights of the side dropped |
| ChessBoard.Board.MoveQueenside | ConsoleApp/Chess/Board.cs:222-236 | after the queenside branch the board holds the arrays and rights `AfterMove` gives: the rook moved from `End - 2` (corrected from line 225's `End - 1`) to `End + 1`, the king's square recorded and both rights of the side dropped |
| ChessBoard.Board.MovePlain | ConsoleApp/Chess/Board.cs:238-255 | a king move takes both rights of its side and moves the king, a rook move takes the right of its corner |
| ChessBoard.Board.Takeback | ConsoleApp/Chess/Board.cs:274-368 | with an empty history nothing changes and the result is false; otherwise the last entry is popped, its key restored and the position is the one `AfterTakeback` gives |
| ChessBoard.Board.Back | ConsoleApp/Chess/Board.cs:278-368 | the takeback of one entry leaves the position `AfterTakeback` gives with the entry's key |
| ChessBoard.Board.Drop | ConsoleApp/Chess/Board.cs:365 | the last history entry is removed |
| ChessBoard.Board.Restore | ConsoleApp/Chess/Board.cs:279-285 | the key, the rights, the en-passant square and both counters come back from the history entry |
| ChessBoard.Board.TakePieces | ConsoleApp/Chess/Board.cs:291-305 | the mover goes back to its starting square and the captured code to the ending square, in the mailbox and the bitboards |
| ChessBoard.Board.TakePromotion | ConsoleApp/Chess/Board.cs:307-315 | after the promotion branch of the takeback the board holds what `AfterTakeback` gives: the promoted piece's bit cleared and the pawn back in the bitboards |
| ChessBoard.Board.TakeEnpassant | ConsoleApp/Chess/Board.cs:316-328 | after the en-passant branch of the takeback the board holds what `AfterTakeback` gives: the captured pawn back behind the en-passant square |
| ChessBoard.Board.TakeKingside | ConsoleApp/Chess/Board.cs:329-343 | after the kingside branch of the takeback the board holds what `AfterTakeback` gives: the rook back on `End + 1` and the king's square restored |
| ChessBoard.Board.TakeQueenside | ConsoleApp/Chess/Board.cs:344-358 | after the queenside branch of the takeback the board holds what `AfterTakeback` gives: the rook back on `End - 2` and the king's square restored |
| ChessBoard.Board.TakePlain | ConsoleApp/Chess/Board.cs:359-363 | after the remaining branch of the takeback the board holds what `AfterTakeback` gives: a king's starting square recorded again |

## Left out

- Console input and output are not modelled: `Program.cs`, `Engine.cs` (the UCI loop, its Stopwatch and the perft counter), `Board.Text`, `Bitboard.WriteBitboard` and the sudoku's `Board` text.
- `AStarPathFinding` timing text is not modelled. The Stopwatch is a clock, so the elapsed time it reports is left out of `GetPath`'s text.
- Random numbers are not generated. `System.Random` in `W2048.PutRandomTwo` becomes a free choice among the candidate cells (any choice satisfies the contract). The Zobrist key tables are a parameter of which only the shape is fixed, so the key properties hold for every table, including the seeded one.
- `Sudoku(int difficulty)` is not modelled: it fills the grid by random exchanges and blanks random cells.
- `Chess.cs` is not part of this model. It is an older copy of the engine with conflicting encodings.
- `Coordinates.cs` is not part of this model. It refers to board members that do not exist. Its square reader is replaced by `UniversalChessInterface.GetSquareFromUci`, the same reading that `LoadFen` relies on.
- `Castlings.cs` is not part of this model: its constants are unused.
- `Algorithm.cs`, `Olympics.cs` and `Algebra.cs` are not part of this model. They duplicate the modelled classes, are ad-hoc exercises, or use floating-point geometry.
- Floating-point code is not modelled: `Recursion.Power`, `Recursion.Sigma`, `Recursion.Pi` and `OutCategory.FareySequence`.
- `OutCategory.RotateMatrix` is not modelled: it is unfinished and returns an unrotated copy of its input.
- `Board.Materials` and `Piece.Values` are not modelled. The value table the board adds up is declared nowhere in the source.
- `Board.MakeMove(string)` is modelled as `MoveGenerator.MakeUciMove`, outside the `Board` class, because the generator's module builds on the board's. When the move it matches is not `Playable`, the model reports the source's IndexOutOfRangeException but does not describe the board that `MakeMove(Move)` leaves part-way through.
- Move properties: `Move.cs` does not declare `IsCapture`, `IsHalfmove` or `IsEnpassantCapture`, though `Board.cs` reads them. The model gives them the meaning their uses need:
  - `IsCapture` holds when the target square held a piece;
  - `IsHalfmove` holds when the move is neither a capture nor a pawn move;
  - `IsEnpassantCapture` is the same as `IsEnpassant`.
- ChessBoard.Board.MakeMove: requires a move that is `Playable`:
  - piece codes below 16;
  - the castling rook squares on the board;
  - the en-passant pawn square on the board.
  That every move the generator produces is `Playable` is not proved; `MoveGenerator.MakeUciMove` reports a throw for a matched move that is not. A move that breaks this makes the source throw; `ChessBoard.Board.MakeMove` does not represent that throw, and `MoveGenerator.MakeChosen` reports it.
- ChessBoard.MoveAgrees: the board's mailbox and bitboards are proved to stay in step only for a move that `Fits` the position: a friendly piece moves and a capture takes an enemy piece. `Board.Valid` does not carry that agreement. `MakeMove` states it conditionally.
- RadixSort.Sort: the corrected, stable sort is proved only for non-negative entries. With negative entries, C#'s truncating digits order the entries by sign-dependent digits. `RadixSort.SortAsWritten` covers every input.
- CountingSort.Sort: the array being sorted is taken to be shorter than 2^31 entries; the count array's own limit, 0x7FFFFFC7 entries, is modelled as a throw.
- OutCategory.SmallestNumber: exact only while the least common multiple of 1 to `value` fits in an `int`. Past that, the source's wrapped products are not characterised.
- ForsythEdwardsNotation.Loaded: the mailbox and the bitboards of the loaded position agree only when the placement field puts real pieces on distinct squares (`LoadedAgrees`; `Load` and `LoadFen` state it under that condition). Otherwise they need not agree:
  - an unknown letter puts down code 0, which sets a bit of colour bitboard 0 on a square the mailbox calls empty;
  - a file past 7 runs into the rank bits of `((7 - rank) << 3) | file` and can write onto a square already holding a piece, whose bits stay set.
- `GetMoveFromUci` reads `board.KingSquare` and `board[i]`, which `Board.cs` does not declare (the only indexer, in `Chess.cs`, returns 0 off the board). The model reads them as `Kings[FriendlyColourIndex]` and `Squares[i]`, so a number off the board throws IndexOutOfRangeException. Likewise `LoadFen` calls `Coordinates.SquareFromUci`, which `Coordinates.cs` does not declare; the model reads it as `UniversalChessInterface.GetSquareFromUci`.
- Character tests and case changes (`char.IsDigit`, `char.IsUpper`, `char.ToLower`, `char.ToUpper`, `string.ToLower`) are modelled for ASCII only (`string.Trim` and `char.IsWhiteSpace` cover the full Unicode white-space set, and `int.TryParse` allows U+0009 to U+000D and the space, as .NET's default number style does). C#'s `char.IsDigit` also accepts the other Unicode decimal digits, and the case changes also map non-ASCII letters.
- Arrays.Permutation: returns each arrangement as the sequence of its entries. The source writes each one as the text `"(a, b, ...)"` with `string.Join`, which is not modelled.
- Overflow at the top of `int` is not modelled in three places:
  - the loop counter of `OutCategory.SmallestNumber` wraps when `value` is `int.MaxValue`, so the source's loop never ends;
  - `JumpSearch.Search` computes `i + m` in unbounded integers, where the source's sum wraps for arrays close to 2^31 entries;
  - the 2048 join doubles a tile in unbounded integers, where the source's `int` would wrap past 2^30.
- The static constructor of `PrecomputedMoveData` is modelled as the constructor of a `Tables` object that the generator and the attack map receive. The tables are not static fields.

## Findings

| source | as written | input that shows it | evidently intended | confidence | as-written member | corrected member |
|---|---|---|---|---|---|---|
| ConsoleApp/Chess/Board.cs:225 | queenside castling takes the rook from `EndingSquare - 1`, while the takeback (line 347) puts it back on `EndingSquare - 2` | White castles e1c1 with the rook on a1: the rook bitboard gains b1 instead of losing a1, and taking the move back leaves the bitboard wrong on b1 | the rook comes from its corner, `EndingSquare - 2` | not executed | ChessBoard.QueensideRoundTripFails | ChessBoard.MakeRoundTrip |
| ConsoleApp/Chess/MoveGenerator.cs:82-85 | the generator flags castling moves with the `Flags.cs` values, kingside 64 and queenside 128, while `Move` decodes flags with `MoveFlags.cs`, where 64 is queenside | White's kingside castling e1g1 is read by `Move` as queenside castling with its rook on a1 | castling moves carry the `MoveFlags` value for their side | not executed | MoveGenerator.CastlingFlagsSwapped | MoveGenerator.CastlingFlagsRead |
| ConsoleApp/Chess/UniversalChessInterface.cs:36 | a square name is turned away only when `(square & 64) != 0` | "aab1": the first name reads as 384, which passes the test, so reading the mailbox at 384 throws IndexOutOfRangeException, under the reading of `board[i]` as `Squares[i]` given under Left out | a name is accepted only when it reads as a square 0..63 | not executed | UniversalChessInterface.OffBoardNameThrows | UniversalChessInterface.CheckedOnlyNamesThrow |
| ConsoleApp/Algorithm/Sorting/QuickSort.cs:33-35 | entries are exchanged by three exclusive-or assignments, also when both indexes are the same | partitioning `[1, 2]`: `values[0]` is exchanged with itself and becomes 0 | an exchange that keeps the entries | not executed | QuickSort.ZeroedEntry | QuickSort.Partition |
| ConsoleApp/Algorithm/Sorting/RadixSort.cs:23-36 | each digit pass reorders the entries by exchanges that do not keep the order the earlier passes set | `[21, 22, 12]` ends as `[12, 22, 21]` | a stable pass per digit, so the array ends sorted | not executed | RadixSort.Unsorted | RadixSort.Sort |
| ConsoleApp/Algorithm/Sorting/CountingSort.cs:27 | the descending sort starts writing at index `maxValue - 1` | `[1, 1]` descending: `k` starts at 0, and after the first write it wraps from 0 to 0xFFFFFFFF, so the second write throws IndexOutOfRangeException | start at the last index, `values.Length - 1` | not executed | CountingSort.DescendingThrows | CountingSort.Sort |
| ConsoleApp/Algorithm/Bitwise.cs:25-28 | `Reset` computes `value & (0 << index)`, which is 0 | resetting bit 0 of 3 gives 0 instead of 2 | `value & ~(1 << index)` | not executed | Bitwise.ResetClearsOthers | Bitwise.ResetBits |
| ConsoleApp/Algorithm/Recursion.cs:143-154 | divisors `k` are tried only while `k < value / 2`, so for 4 the divisor 2 is never tried | `IsPrime(4)` is true | true exactly for values of at least 2 with no factor other than 1 and the value | not executed | Recursion.FourPasses | Recursion.IsPrimeMeaning |
| ConsoleApp/Algorithm/Recursion.cs:115-121 | odd numbers are recognised by `value % 2 == 1`, which is -1 for negative odd numbers in C# | `OddsInRange(-1, 0)` lists nothing | a test that holds for negative odd numbers too | not executed | Recursion.OddsMissNegatives | Recursion.OddsSplit |
| ConsoleApp/Algorithm/OutCategory.cs:82-87 | A and B donors are allowed to give to O recipients | `CanGiveBlood("A+", "O+")` is true | the ABO rule: O recipients accept O only | not executed | OutCategory.AGivesToO | OutCategory.Compatible |
| ConsoleApp/2048/W2048.cs:121-134 | the merge joins a tile with the next equal non-zero tile even across a different tile, and a joined tile can join again | `[2, 4, 2, 0]` becomes `[4, 4, 0, 0]`; `[2, 2, 4, 0]` becomes `[8, 0, 0, 0]` | the 2048 rule: neighbouring equal tiles join once each | not executed | W2048.MergeAsWrittenJoinsAcross | W2048.MergeNonZeros |
| ConsoleApp/2048/W2048.cs:144 | the cells tried for the new 2 are the far ends of the lines for left and up, but the front ends for right and down | the board `[2, 0, 0, 4, 2, 4, 8, 16, 4, 8, 16, 32, 8, 16, 32, 64]` moved right changes the board, yet every cell tried is full, so no 2 appears | the new 2 goes on an empty cell at the far end of a line for every direction | not executed | W2048.SpawnAsWrittenMisses | W2048.SpawnAlways |
