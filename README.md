# Go tour notebook: slices, maps and closures in Dafny

This project models the parts of a Go-tour notebook (`main.go`) that have behaviour worth stating:

- **Word count.** `WordCount` splits a string into whitespace-separated fields, as `strings.Fields` does. It then builds a map from each distinct field to its number of occurrences, updating the map in place as it loops.
- **Closure generators.** `adder()` and `fibonacci()` return closures. Each closure owns a private cell of captured variables. A closure is modelled as an object whose fields are those variables and whose `Call` method is the closure body. Each generator call allocates a fresh object, so two closures never share state.
- **Slices.** A slice is a header `(array, offset, len, cap)` over a shared Dafny `array`. Re-slicing keeps the array. Omitted bounds default to `0` and `len`. Bounds are checked against the capacity. A write through one slice is seen by every slice over the same array. `append` writes in place while the elements fit, and otherwise copies into a fresh array.
- **Maps.** A Go map is a reference to a table, or nil. Lookup returns the value and a presence flag, with the zero value for a missing key. Writing into a nil map panics.
- **The powers-of-two fill** of `range_demo2`.

Go's `int` is taken as 64 bits (module `Int64`). The adder's running sum, the Fibonacci registers and `1 << i` wrap modulo 2^64 exactly as Go does. For example, `1 << 63` is the most negative `int` and `1 << 64` is 0. Indices, slice bounds and `make` sizes are unbounded integers, so negative values are expressible. Run-time panics are modelled as error results or `ok == false`, with no effect on the state. They cover a slice bound outside `0 <= lo <= hi <= cap`, an index outside `0 <= i < len`, `make` with a negative `len` ("len out of range") or with `cap < len` ("cap out of range"), and a write into a nil map.

Files: `int64.dfy`, `wordcount.dfy`, `closures.dfy`, `slices.dfy`, `maps.dfy`, `powers.dfy`, one module each.

## Model

| member | source | states |
|---|---|---|
| `WordCount.WordCount` | main.go:333-343 | The result equals the reference count `Tally(Fields(s))`. Its keys are exactly the distinct fields of `s`. Each key maps to the number of occurrences of that field, which is at least 1. |
| `WordCount.TallyStep` | main.go:336-340 | Counting one more field enters a first occurrence with count 1 and increments the count of a field already present. This is the loop body's update, proved against the reference count. |
| `WordCount.TallySum` | main.go:333-343 | The counts of the result add up to the number of fields. |
| `WordCount.Fields` | main.go:335 | `strings.Fields`: every field it returns is non-empty and contains no space character. |
| `WordCount.FieldsAfterWord` | main.go:335 | A word followed by a space, or by the end of the string, is split off as exactly one field. |
| `WordCount.FieldsOfJoin` | main.go:335 | Splitting fields joined by single spaces gives the same fields back. |
| `WordCount.FieldsKeepNonSpace` | main.go:335 | The fields, put end to end, are exactly the non-space characters of the input, in order. |
| `WordCount.WordEnd` | main.go:335 | The end of a field is the first space character, or the end of the string. |
| `Int64.Wrap` | main.go:375 | Storing an exact result in an `int` gives an in-range value congruent to it modulo 2^64, and leaves in-range values unchanged. |
| `Int64.WrapUnique` | main.go:375 | The wrapped value is the only in-range value congruent to the exact one. |
| `Int64.WrapAdd` | main.go:375 | Adding to an accumulated `int` agrees with exact addition wrapped once at the end. |
| `Int64.WrapAddBoth` | main.go:421 | The `int` sum of two wrapped values is the wrapped exact sum. |
| `Int64.Shl` | main.go:238 | `x << n` keeps the product `x * 2^n` modulo 2^64: the result is congruent to it, and equal to it whenever it fits in an `int`. |
| `Int64.ShlOneSmall` | main.go:238 | `1 << n` equals 2^n for every `n` below 63. |
| `Int64.ShlOneSignBit` | main.go:238 | `1 << 63` is the most negative `int`. |
| `Int64.ShlOneWide` | main.go:238 | `1 << n` is 0 for `n` of 64 or more. |
| `Closures.Adder.constructor` | main.go:372-373 | A new adder has its own `sum`, starting at 0, and no calls yet. |
| `Closures.Adder.Call` | main.go:374-377 | The call adds `x` to this adder's `sum` and returns the new sum. The new sum is the wrapped total of all arguments so far. Only this object changes. |
| `Closures.RunAdder` | main.go:372-378 | A fresh adder driven with `x1..xn` returns, at the k-th call, the running total `x1+...+xk`. |
| `Closures.DriveTwoAdders` | main.go:386-393 | Two fresh adders driven in turn with `i` and `-2*i` keep separate sums. At round k they return the k+1-th triangular number and minus twice it. |
| `Closures.TriangleTable` | main.go:397-406 | The first ten triangular numbers are 0,1,3,...,45, and minus twice them are 0,-2,-6,...,-90. |
| `Closures.ClosureDemo` | main.go:386-407 | The ten rounds of `func_closure_demo` yield 0,1,3,...,45 and 0,-2,-6,...,-90. |
| `Closures.Fibonacci.constructor` | main.go:415-417 | A new closure starts at `(numA, numB) = (0, 1)`. |
| `Closures.Fibonacci.Call` | main.go:418-423 | After n calls, `numA = fib(n)` and `numB = fib(n+1)` (as `int`s). The (n+1)-th call returns `fib(n)`. |
| `Closures.FibInts` | main.go:411-430 | The reference sequence of the closure's outputs: its k-th element is `fib(k)` as an `int`. |
| `Closures.FirstFibs` | main.go:415-430 | A fresh closure called n times yields `fib(0), ..., fib(n-1)`, the reference sequence. |
| `Closures.FibonacciDriver` | main.go:411-430 | Ten calls yield 0,1,1,2,3,5,8,13,21,34. |
| `Slices.Reslice` | main.go:142-171 | `s[lo:hi]` defaults `lo` to 0 and `hi` to `len`, and `s[:]` is `s`. It succeeds exactly when `0 <= lo <= hi <= cap`, and otherwise panics with "slice bounds out of range". The result shares the backing array and has length `hi-lo` and capacity `cap-lo`. |
| `Slices.ResliceWithinLen` | main.go:160-170 | Within the length, a re-slice shows the sub-range `[lo:hi]` of what the slice shows. |
| `Slices.ResliceCompose` | main.go:179-183 | A re-slice with non-negative bounds of a re-slice is one re-slice with the offsets added. It is legal exactly when that one is. |
| `Slices.Get` | main.go:100-103 | `s[i]` succeeds exactly for `0 <= i < len` and gives element `i` of what the slice shows. Otherwise it panics with "index out of range". |
| `Slices.Set` | main.go:102 | `s[i] = v` writes element `off+i` of the backing array, and no other. It panics, writing nothing, unless `0 <= i < len`. |
| `Slices.AliasedWrite` | main.go:83-104 | After a write through one slice, another slice over the same array shows the new value at the matching index if it covers the element. Otherwise it is unchanged. |
| `Slices.OfArray` | main.go:79-81 | Slicing an array gives a slice over that same array (no copy) that shows all of it, with capacity the array's length. |
| `Slices.Literal` | main.go:158 | A slice literal is a fresh array viewed whole, with `len = cap =` the number of elements. |
| `Slices.Make` | main.go:173-177 | `make([]T, len[, cap])` gives a fresh array of `cap` zero values, with `cap` defaulting to `len`. It panics with "len out of range" when `len < 0`, and with "cap out of range" when `cap < len`. |
| `Slices.Append` | main.go:211-226 | The result shows the old elements followed by the new ones. When they fit, they are written in place after `len` and nothing else changes. Otherwise a fresh, zero-padded array is used and the old array is untouched. |
| `Slices.SlicesDemo` | main.go:78-106 | `primes[1:4]` is `[3 5 7]`. `a = names[0:2]` and `b = names[1:3]` start as `[John Paul]` and `[Paul George]`. After `b[0] = "XXX"`, `a` is `[John XXX]`, `b` is `[XXX George]` and `names` is `[John XXX George Ringo]`. |
| `Slices.SliceDefaultDemo` | main.go:142-184 | `s[1:4]`, `s[:2]`, `s[1:]` and `s[:]` give `[3 5 7]`, `[3 5]`, `[5]` and `[5]`. `make([]int,5)` has len 5 and cap 5. `b[:2]` has len 2 and cap 5, and `c[2:5]` has len 3 and cap 3. |
| `Slices.AppendSliceDemo` | main.go:211-226 | Appending to a nil slice gives `[0]`, then `[0 1]`, then `[0 1 2 3 4]`, whatever capacities the run-time picks. |
| `Maps.GoMap.Nil` | main.go:291-298 | A declared map is nil and reads as empty. |
| `Maps.GoMap.Make` | main.go:317 | `make(map[K]V)` is a fresh, empty, non-nil map. |
| `Maps.GoMap.Lookup` | main.go:326-329 | `v, ok := m[k]`: `ok` says whether `k` is present. If it is, `v` is the stored value. If not, `v` is the zero value. |
| `Maps.GoMap.Put` | main.go:319-323 | `m[k] = v` inserts or overwrites, so a later lookup gives `(v, true)` and other keys are unaffected. On a nil map it panics and nothing changes. |
| `Maps.GoMap.Delete` | main.go:325 | `delete(m, k)` makes a later lookup give `(zero, false)` and leaves other keys alone. |
| `Maps.MapDemo` | main.go:316-329 | On `m3`, the reads give 42, then 48, then 0 after the delete, and the two-value lookup gives `(0, false)`. |
| `Maps.NilMapDemo` | main.go:291-298 | A nil map refuses a write, tolerates a delete and reads `(0, false)`. |
| `Powers.FillPowers` | main.go:237-239 | Every element of the array becomes the 64-bit `int` value of `1 << i`. |
| `Powers.RangeDemo2` | main.go:235-239 | `make([]int, 10)` filled by the loop holds 2^0..2^9 = 1,2,4,...,512. |

## Left out

- Printing (`fmt.Println`, `fmt.Printf`, `printSlice`, `printSlice2`) and `main`: these are output only. The demo methods return the values that would be printed instead.
- Floating-point code (`Vertex2.Abs`, `MyFloat.Abs`, `VertexFloat.Abs`/`Scale`, `ScaleFunc`, `hypot`, `compute`, `GeoVertex` and the maps `m`, `m2` of `map_demo`): floating point and calls into `math`.
- The pointer, struct and struct-literal demos, `arrays_demo`, `slice_literals_demo`, `slices_of_slices` and `range_demo`. They show single assignments or only print.
- The value-copy semantics of Go arrays (assigning an array copies it). No routine in scope copies an array.
- Everything inside comment blocks: the `Pic` exercise, interfaces, readers, the image exercise and the goroutine-based tree comparison.
- `strings.Fields` works on the UTF-8 bytes of a Go string. The model works on already-decoded characters. Invalid UTF-8, which Go reads as U+FFFD, a non-space, is not modelled.
- Slices.Append: the capacity chosen when a slice grows (Go's growth policy and allocation size classes) is a parameter, not computed. Only "at least the length needed" is promised.
- A nil slice is modelled as an empty slice over a zero-length array. The two differ in Go only when compared with `nil`.
- A panic aborts a Go program. The model returns an error (or `ok == false`) and leaves the state unchanged instead of stopping.
- Go's `int` is taken as 64 bits, as on every 64-bit platform. On a 32-bit platform the adder sums, the Fibonacci registers and `1 << i` would wrap modulo 2^32 instead.
- `make` panics as well when the requested memory exceeds the run-time's allocation limit. That limit is platform-specific and is not modelled.
- `WordCount` counts are unbounded integers. A count cannot exceed the number of fields, so 64-bit overflow cannot occur.
