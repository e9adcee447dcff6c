# lilit iterator helpers in Dafny

This project models the synchronous core of lilit, a library of pull-based
helpers over JavaScript iterables. It covers two parts: the fork engine of
`src/common.mjs` (`tee`, `teeN`, `isIterator`, `iterator`, `pipe`) and the
operator catalogue of `src/iter.ts`.

How the JavaScript world is represented:

- An iterable is `Common.Iterable`. It is one of three things:
  - `Restartable(xs)`: an array. Every `[Symbol.iterator]()` call starts it
    afresh, so it is not an iterator.
  - `Iter(cursor)`: a single-pass iterator, modelled by the class
    `Cursors.Cursor`. It is either an array iterator, which has no `return`
    method, or a generator, whose `return` finishes it (`closable`).
    Leaving a `for...of` loop early calls `return`.
  - `Branch(tee, i)`: one of the two generators that `tee` hands out.
- `Common.Elements` is what an iterable still has to yield.
- `tee` is the class `Common.Tee`. It has the shared upstream `up` and the
  two FIFO `buffers` of the source. Ghost fields record every upstream
  value (`all`), how many were pulled (`pulled`) and how many each branch
  has taken (`taken`). The unique `DONE` symbol becomes `None`.
- Each operator of `iter.ts` has two parts:
  - a pure specification function over the sequence its input yields
    (modules `Operators`, `Folds`, `Constructors`);
  - where the source walks an iterator step by step, an imperative method
    (module `Generators`) that walks a `Cursor` and is proved equal to that
    function. These methods also say where the cursor is left.
- `teeN(it, n)` (`Common.TeeN`) builds a chain of tees: each copy is the
  second branch of its tee, whose source is the first branch of the tee
  before it. Reading one copy moves only the tees at or before it, so the
  later copies still replay the whole source (`Forks.DrainEach`).
- The tee-based operators (`partition*`, `unzip2`, `unzip3`, `unzip(n)`,
  `repeat`, `product2`, `product3`, `combinations2`) are methods in
  `Forks`. They really tee their inputs and read the forks.
- `TeeReplay` proves that the two branches of a tee may be read in any
  interleaving. It also proves that every upstream element is pulled exactly
  once.
- `Scenarios` replays the cursor tests for `some` and `every` on the
  three-element array iterator.

A generator's output is the sequence it yields when it is drained.
Producers that never end are stated through a `bound` on how many values
are taken: `range` with its default end, `constantly`, `cycle`, and `zip`
with no inputs.

## Model

| member | source | states |
|---|---|---|
| Cursors.Cursor.Next | src/common.mjs:7-9 | one `next()` on an array iterator or generator yields its next element and advances by one, or reports done and stays |
| Cursors.Cursor.Return | src/iter.ts:129-131 | leaving a `for...of` early finishes a generator, while an array iterator, which has no `return`, keeps what it has left |
| Common.ThreadSnoc | src/common.mjs:1-5 | threading through one more function applies it to the previous result |
| Common.ThreadAppend | src/common.mjs:1-5 | threading through `fs + gs` is threading through `fs`, then through `gs` (left to right) |
| Common.Pipe | src/common.mjs:1-5 | the loop's result is `x` threaded through `fs` in order, and `x` itself when there are no functions |
| Common.GetIterator | src/common.mjs:7-9 | the iterator yields what the iterable has left; it is the iterable itself exactly when that is an iterator (`isIterator`, src/common.mjs:15-18); an array gets a fresh array iterator |
| Common.BufferedShift | src/common.mjs:35 | the head of branch `i`'s buffer is the next upstream value that branch has not taken, and shifting it keeps the buffer invariant |
| Common.BufferedPush | src/common.mjs:36-38 | a branch with an empty buffer has taken everything pulled so far; pulling a new value and pushing it onto the other buffer keeps the buffer invariant |
| Common.Tee.ValidUp | src/common.mjs:30 | the shared source still has exactly the upstream values not yet pulled, and neither branch is ahead of the pulls |
| Common.Tee.Lag | src/common.mjs:31-38 | at most one buffer is non-empty, and it holds exactly the upstream values the other branch has taken beyond this one, in order |
| Common.Tee.constructor | src/common.mjs:30-31 | a new tee has empty buffers, nothing pulled, and both branches with the whole source ahead of them |
| Common.Tee.Step | src/common.mjs:34-40 | branch `i` gets its next upstream value in order; from its own buffer when that is non-empty (FIFO), otherwise by one pull whose value is pushed onto the other buffer only; `DONE` when the source is exhausted |
| Common.Tee.Shift | src/common.mjs:35 | taking from a non-empty own buffer returns its head and touches neither the source nor the other buffer |
| Common.Tee.PullShared | src/common.mjs:36-39 | with an empty own buffer the branch pulls once; the value goes to this branch and onto the other buffer; an exhausted source changes nothing |
| Common.Tee.Record | src/common.mjs:38 | a pulled value is appended to the other branch's buffer and counts as taken by this branch |
| Common.Tee.Next | src/common.mjs:42-47 | a branch yields the head of what it has left and drops it; the other branch's remaining values are untouched; it ends only when its buffer is empty and the source is done |
| Common.Tee.Return | src/common.mjs:42-47 | leaving a branch early finishes that branch and leaves the other branch's values and both buffers as they were |
| Common.Pull | src/common.mjs:7-9 | one `next()` on an iterator yields the head of what it has left, or done |
| Common.Close | src/common.mjs:42-47 | `return()` finishes a generator or tee branch; an array iterator keeps what it has left |
| Common.TeeOf | src/common.mjs:25-49 | a non-iterator comes back twice unchanged and without buffers; an iterator is shared by two fresh branches with empty buffers, each with the whole rest of the source ahead |
| Common.Drain | src/common.mjs:42-48 | reading an iterable to the end yields exactly its remaining values in order; an iterator is then exhausted and an array is unchanged |
| Common.TeeKeeping | src/common.mjs:79-81 | one step of the `teeN` loop: both results replay the source, and the copies already handed out are unaffected |
| Common.TeeN | src/common.mjs:76-85 | `teeN(it, n)` returns `max(n, 1)` iterables, each replaying the whole source; an array is returned as itself every time; `n <= 1` gives `[it]`; for an iterator the results form a chain of tees (each copy is the second branch of its tee, whose source is the first branch of the tee before), all of whose objects are new apart from those of `it` |
| Common.LinkedSnoc | src/common.mjs:79-81 | one more `tee` of the kept iterable extends the `teeN` chain by one copy |
| Common.LinkedRepr | src/common.mjs:76-85 | in the `teeN` chain the objects of each copy lie below every later tee and within those of the last iterable, so walking a copy cannot touch a later tee |
| Common.SettledOf | src/common.mjs:25-49 | the state each later tee of the chain keeps in its own fields: its buffers, its second branch's rest, and what it still owes from the first branch of the tee before it |
| Common.SettledValid | src/common.mjs:25-49 | while a tee's first branch keeps what it had left, every later tee of the chain is consistent again and every later copy and the last iterable still replay the whole source |
| TeeReplay.TeeInterleaved | src/common.mjs:25-49 | reading both branches of a tee over a single-pass source, in the order a schedule picks, gives each branch the source's elements in order; the source is pulled exactly once per element |
| TeeReplay.ReadInSchedule | src/common.mjs:34-48 | on any schedule both branches end up with the full source, and the source is exhausted |
| TeeReplay.ReadScheduled | src/common.mjs:34-47 | after any schedule of `next(0)`/`next(1)` calls, what each branch has read is the prefix of the source it has taken |
| TeeReplay.PulledOnce | src/common.mjs:36 | when a branch has taken the whole source, the upstream cursor has been advanced exactly once per element |
| TeeReplay.ReadBranch | src/common.mjs:42-47 | one read by branch `i` extends what it has read by the next source value, or reports done at the end; the other branch is unaffected |
| TeeReplay.DrainBranch | src/common.mjs:42-47 | draining one branch gives it the whole source without changing what the other branch has read |
| Operators.Map | src/iter.ts:15-19 | `map(f)` keeps the length |
| Operators.MapAt | src/iter.ts:15-19 | the `i`-th output of `map(f)` is `f` of the `i`-th input |
| Operators.FilterKeeps | src/iter.ts:80-86 | `filter(p)` yields only elements satisfying `p`, drawn from the input, and drops none that satisfies `p` |
| Operators.FilterSplit | src/iter.ts:88-93 | the two filters of `partition(p)` together hold exactly the input's elements |
| Operators.AnyExists | src/iter.ts:62-69 | `some(p)` is true exactly when some element satisfies `p`, and false on empty input |
| Operators.AllForall | src/iter.ts:71-78 | `every(p)` is true exactly when every element satisfies `p`, and true on empty input |
| Operators.FindIndex | src/iter.ts:163-172 | the index is `-1` or a position whose element satisfies `p` |
| Operators.FindIndexFirst | src/iter.ts:163-172 | no element before the found index satisfies `p`, and none at all when the result is `-1` |
| Operators.Find | src/iter.ts:154-161 | `find(p)` is `null` exactly when `findIndex(p)` is `-1`, and otherwise the element at that index |
| Operators.AnyAllDual | src/iter.ts:62-78 | `every(p)` is `!some(!p)`; `some(p)` holds exactly when `findIndex(p)` finds something |
| Operators.Clamp | src/iter.ts:95-113 | the counts of `skip`/`take` are cut to `0..len` |
| Operators.Take | src/iter.ts:105-113 | `take(n)` yields the first `min(max(n, 0), len)` elements |
| Operators.Skip | src/iter.ts:95-103 | `skip(n)` yields what follows the first `min(max(n, 0), len)` elements |
| Operators.PartitionAt | src/iter.ts:116-121 | the two halves of `partitionAt(n)` concatenate back to the input, and the first has the clamped length `n` |
| Operators.Partition | src/iter.ts:88-93 | the halves of `partition(p)` together are a permutation of the input; the first holds only elements satisfying `p`, the second only elements failing it |
| Operators.TakeWhilePrefix | src/iter.ts:138-145 | `takeWhile(f)` is a prefix of the input, and the element after it (if any) fails `f` |
| Operators.TakeWhileAll | src/iter.ts:138-145 | every element `takeWhile(f)` yields satisfies `f`; with the prefix lemma this makes it the longest such prefix |
| Operators.SkipLoopStops | src/iter.ts:127-132 | the first loop of `skipWhile` stops right after the first element failing `f`; when there is none, `first` is the last element, or `undefined` on empty input |
| Operators.SkipWhile | src/iter.ts:125-136 | on an array, `skipWhile(f)` yields everything from the first failing element on; when all satisfy `f` it yields the last element alone; on empty input it yields `undefined` alone |
| Operators.SkipWhileOnGenerator | src/iter.ts:129-134 | on a generator, the `break` ends the generator, so `skipWhile(f)` yields only its one "first" element |
| Operators.SkipWhileIntended | src/iter.ts:125-136 | the corrected `skipWhile(f)`: `takeWhile(f)` followed by it is the input, and its first element fails `f` |
| Operators.SkipWhileAgrees | src/iter.ts:125-136 | `skipWhile` as written agrees with the corrected one exactly when some element fails `f` |
| Operators.SkipWhileAllSatisfy | src/iter.ts:125-136 | as-written counterexample: all satisfying gives `[3]` where `[]` is meant, and empty input gives `[undefined]` |
| Operators.SkipWhileGeneratorCut | src/iter.ts:129-134 | as-written counterexample: over a generator of 1..5 with `x < 3` only `3` comes out, while an array gives `3, 4, 5` |
| Operators.PartitionWhile | src/iter.ts:147-152 | on an array the two halves of `partitionWhile(f)` concatenate back to the input when some element fails `f`; when all satisfy it, the last element is repeated in the second half |
| Operators.PartitionWhileIntended | src/iter.ts:147-152 | the corrected `partitionWhile(f)`: the halves concatenate to the input, the first all satisfy `f`, and the second starts with a failing element |
| Folds.FoldSnoc | src/iter.ts:40-48 | `reduce(f, init)` over one more element applies `f` once more to the previous result |
| Folds.Scan | src/iter.ts:50-58 | `scan` yields one value per input element |
| Folds.ScanIsRunningFold | src/iter.ts:50-58 | the `k`-th value of `scan(f, init)` is `reduce(f, init)` over the first `k + 1` elements |
| Folds.ScanLastIsFold | src/iter.ts:50-58 | the last value of `scan` is the `reduce` of the whole input |
| Folds.Extreme | src/iter.ts:293-313 | `minBy`/`maxBy` are `null` exactly on empty input |
| Folds.MinStepKey | src/iter.ts:299 | with a comparator ordering by a key, the minimum loop keeps a least key, and replaces `res` only by an earlier-first strictly smaller element |
| Folds.MinByKey | src/iter.ts:293-302 | `minBy(cf)` is an element with the least key, and the first such element |
| Folds.MaxStepKey | src/iter.ts:310 | with a comparator ordering by a key, the maximum loop keeps a greatest key, and replaces `res` only by an earlier-first strictly greater element |
| Folds.MaxByKey | src/iter.ts:304-313 | `maxBy(cf)` is an element with the greatest key, and the first such element |
| Folds.MinMaxFromSplit | src/iter.ts:322-325 | the joint loop of `minMaxBy` computes the minimum loop and the maximum loop side by side |
| Folds.MinMaxBy | src/iter.ts:315-328 | `minMaxBy(cf)` is the pair `(minBy(cf), maxBy(cf))`, `[null, null]` on empty input |
| Folds.ExtremeScan | src/iter.ts:330-354 | as written, the scans yield `[null]` on empty input and one value fewer than the input otherwise |
| Folds.ExtremeScanAt | src/iter.ts:330-354 | as written, the `k`-th value of the scans is the extreme of the first `k + 2` elements |
| Folds.ExtremeScanIntended | src/iter.ts:330-354 | the corrected scans: one value per element, the `k`-th being the extreme of the first `k + 1` elements |
| Folds.ExtremeScanDropsFirst | src/iter.ts:330-341 | as-written counterexample: a one-element input yields nothing, where its own element is meant |
| Folds.Pairwise | src/iter.ts:242-251 | `pairwise()` yields one pair fewer than there are elements, none for fewer than two |
| Folds.PairwiseAt | src/iter.ts:242-251 | the `i`-th pair is the `i`-th element with its successor |
| Folds.DistinctFromSpec | src/iter.ts:424-432 | the loop of `distinctUntilChanged` yields elements of its input, none equal by `comp` to the one yielded before it |
| Folds.DistinctSpec | src/iter.ts:424-432 | `distinctUntilChanged(comp)` is a sub-multiset of the input, empty only on empty input, starts with the first element, and has no neighbours equal by `comp` |
| Folds.DistinctFromKeepsValues | src/iter.ts:424-432 | with `===` as `comp`, the loop drops no value except repeats of the last one |
| Folds.DistinctKeepsValues | src/iter.ts:424-432 | with `===` as `comp`, `distinctUntilChanged` keeps exactly the input's values |
| Folds.GroupedFromFull | src/iter.ts:373-384 | `grouped` emits only windows of exactly `n` elements; a trailing incomplete window is never emitted |
| Folds.Windows | src/iter.ts:373-384 | the reference windows are empty exactly when the input is shorter than `n` |
| Folds.WindowsAt | src/iter.ts:373-384 | the `k`-th reference window is the `n` elements starting at `k * s` |
| Folds.WindowsEnd | src/iter.ts:373-384 | the reference windows stop at the first start with fewer than `n` elements left |
| Folds.GroupedFromIsWindows | src/iter.ts:376-382 | the `grouped` loop, from a partial window, emits the reference windows of that window plus the rest, each `min(step, n)` apart |
| Folds.GroupedIsWindows | src/iter.ts:373-384 | for `n, step >= 1`, `grouped(n, step)` yields the width-`n` windows starting every `min(step, n)` elements |
| Folds.GroupedFromOverfull | src/iter.ts:376-382 | once the window is longer than `n` nothing is emitted any more |
| Folds.GroupedFromNoStep | src/iter.ts:376-382 | with `step <= 0` nothing is dropped, so at most one window, the first `n` elements, is emitted |
| Folds.GroupedDegenerate | src/iter.ts:373-384 | `n <= 0` yields nothing; `step <= 0` yields at most the first `n` elements once |
| Folds.EnumerateFrom | src/iter.ts:459-462 | `enumerate` keeps the length |
| Folds.EnumerateFromAt | src/iter.ts:459-462 | the `k`-th output is `[i + k, xs[k]]` |
| Folds.Push | src/iter.ts:218-220 | adding `x` under `key` creates the key's array when new and appends `x` to it; other keys are kept |
| Folds.GroupByKeys | src/iter.ts:214-224 | the keys of `groupBy(f)` are exactly the keys of the input's elements |
| Folds.GroupByIsFilter | src/iter.ts:214-224 | each key's group is the input filtered by that key, in input order, and is non-empty |
| Folds.FilterSnoc | src/iter.ts:80-86 | filtering one more element appends it exactly when it satisfies `p` |
| Constructors.RangeFromAt | src/iter.ts:455 | the `k`-th value of the `range` loop from `i` is `i + k * step` and passes the loop test; the loop stops at the first value failing it |
| Constructors.Range | src/iter.ts:454-456 | `range(start, end, step)` yields `start + k * step` while the test holds (below `end` counting up, above it counting down) |
| Constructors.RangeUp | src/iter.ts:454-456 | counting up by `step >= 1` yields `ceil((end - start) / step)` values; `end` is excluded |
| Constructors.RangeDown | src/iter.ts:454-456 | counting down by `step <= -1` yields `ceil((start - end) / -step)` values; `end` is excluded |
| Constructors.RangeEndless | src/iter.ts:454-456 | a step against the test's direction never ends; `end == start` yields nothing |
| Constructors.RangeDefaults | src/iter.ts:454 | the defaults 0, `MAX_SAFE_INTEGER`, 1 yield `0, 1, 2, ...` |
| Constructors.ConcatAppend | src/iter.ts:464-466 | `concat` of two lists of inputs is the concatenation of their `concat`s |
| Constructors.Sequenced | src/iter.ts:386-398 | the two loops of `startWith` and `endWith` yield `|first| + |second|` values |
| Constructors.SequencedAppend | src/iter.ts:386-398 | the loop over the first input and then over the second yields the first followed by the second |
| Constructors.StartEndWith | src/iter.ts:386-398 | `startWith(...as)` and `endWith(...zs)` are `concat` with the extra values put before, respectively after, the input |
| Constructors.MapAppend | src/iter.ts:15-19 | `map` distributes over concatenation |
| Constructors.FlatMapIsMapConcat | src/iter.ts:418-422 | `flatMap(f)` maps `f` over the flattened input |
| Constructors.Zip2 | src/iter.ts:468-476 | `zip2` stops at the shorter input and pairs the elements at equal positions |
| Constructors.Unzip2 | src/iter.ts:193-198 | `unzip2` gives the first and second components, position by position |
| Constructors.UnzipZip2 | src/iter.ts:193-198 | `unzip2` undoes `zip2` up to the shorter input's length |
| Constructors.ZipUnzip2 | src/iter.ts:468-476 | `zip2` of the two halves of `unzip2` is the input |
| Constructors.Unzip3 | src/iter.ts:200-205 | `unzip3` gives the three components, position by position |
| Constructors.At | src/iter.ts:174-178 | a numeric key picks that position of a row, `undefined` outside it |
| Constructors.Pluck | src/iter.ts:174-178 | `pluck(key)` picks `key` of every row |
| Constructors.Unzip | src/iter.ts:207-212 | `unzip(n)` gives `max(n, 1)` outputs, the `i`-th plucking position `i` |
| Constructors.UnzipZip | src/iter.ts:207-212 | `unzip(n)` undoes `zip`: the `i`-th output is the `i`-th input cut to the shortest input's length, and outputs past the number of inputs are `undefined` everywhere |
| Constructors.MapKeys | src/iter.ts:230-234 | `mapKeys(f)` applies `f` to each key and keeps the value |
| Constructors.MapValues | src/iter.ts:236-240 | `mapValues(f)` keeps each key and applies `f` to the value |
| Constructors.ReplaceWhen | src/iter.ts:364-371 | `replaceWhen(pf, ys)` stops at the shorter input and takes `ys`'s element exactly where `pf` holds |
| Constructors.Row | src/iter.ts:496-498 | a row holds the `k`-th element of every input |
| Constructors.MinLen | src/iter.ts:493-500 | the minimum input length is a lower bound of all the lengths and is reached |
| Constructors.ZipFromRows | src/iter.ts:494-499 | every row the `zip` loop yields is the row of the inputs at that position |
| Constructors.ZipFromLength | src/iter.ts:494-499 | the `zip` loop stops at the shortest input, or runs on when there are no inputs |
| Constructors.Zip | src/iter.ts:493-500 | `zip(...xss)` yields the rows of all positions up to the shortest input's length |
| Constructors.ZipAgreesWithZip2 | src/iter.ts:468-500 | `zip(xs, ys)` yields the same values as `zip2(xs, ys)`, as arrays rather than pairs |
| Constructors.MaxLen | src/iter.ts:503-510 | the maximum input length bounds all lengths and is reached (0 with no inputs) |
| Constructors.PaddedRow | src/iter.ts:506-508 | a padded row has the `k`-th element of every input, `undefined` for a finished one |
| Constructors.ZipOuter | src/iter.ts:503-510 | `zipOuter` yields the padded rows up to the longest input's length |
| Constructors.ZipOuterStops | src/iter.ts:507 | every row of `zipOuter` has a value, and the row just after the last has none, which is where the loop stops |
| Constructors.ZipOuterExtendsZip | src/iter.ts:493-510 | up to the shortest length, `zipOuter` and `zip` yield the same rows |
| Constructors.CutRow | src/iter.ts:643-648 | the last round of `interleave` yields the inputs' `k`-th elements up to the first input that is done |
| Constructors.Interleave | src/iter.ts:640-651 | `interleave` yields full rounds up to the shortest input's length, then the partial round before the first done pull |
| Constructors.RoundsLength | src/iter.ts:640-651 | full rounds contribute `|xss|` values each |
| Constructors.CutRowStops | src/iter.ts:645-647 | the partial round ends no later than the first input that is done |
| Constructors.RoundsAt | src/iter.ts:640-651 | in the full rounds, value `a * |xss| + j` is element `k + a` of input `j` (round-robin in argument order) |
| Constructors.Product2 | src/iter.ts:512-521 | `product2` yields `|as| * |bs|` pairs |
| Constructors.Product2At | src/iter.ts:512-521 | pair `i * |bs| + j` is `(as[i], bs[j])`: lexicographic order |
| Constructors.Product3 | src/iter.ts:523-543 | `product3` yields `|as| * |bs| * |cs|` triples |
| Constructors.Product3At | src/iter.ts:523-543 | triple `i * |bs| * |cs| + j * |cs| + k` is `(as[i], bs[j], cs[k])`: lexicographic order |
| Constructors.Combinations2 | src/iter.ts:551-562 | `combinations2` yields `n * (n - 1) / 2` pairs |
| Constructors.Combinations2Pairs | src/iter.ts:551-562 | a pair is yielded exactly when it is `(xs[i], xs[j])` for some `i < j` |
| Constructors.Repeat | src/iter.ts:598-604 | `repeat(xs, n)` yields `max(n, 0) * |xs|` values |
| Constructors.RepeatAt | src/iter.ts:598-604 | value `a * |xs| + j` is `xs[j]`: `xs` concatenated `n` times |
| Constructors.RepeatSnoc | src/iter.ts:600-603 | one more round of `repeat` appends `xs` once more |
| Constructors.Constantly | src/iter.ts:586-588 | every value `constantly(value)` yields is `value` |
| Generators.SuffixIsSlice | src/iter.ts:129-134 | what an iterator has left after `i` pulls is the input from position `i` on |
| Generators.ReduceOf | src/iter.ts:40-48 | the `reduce` loop returns `reduce(f, init)` of the input and exhausts the iterator |
| Generators.ScanOf | src/iter.ts:50-58 | the `scan` loop yields `scan(f, init)` of the input |
| Generators.LengthOf | src/iter.ts:253-259 | `length()` counts the input's elements |
| Generators.SomeOf | src/iter.ts:62-69 | `some(p)` holds exactly when an element satisfies `p`; it stops at the first match, leaving an array iterator just after it and a generator finished by `return()`; otherwise it exhausts the iterator |
| Generators.EveryOf | src/iter.ts:71-78 | `every(p)` holds exactly when all elements satisfy `p`; it stops at the first failing one, leaving an array iterator just after it and a generator finished by `return()`; otherwise it exhausts the iterator |
| Generators.FindOf | src/iter.ts:154-161 | `find(p)` returns the first matching element, leaving an array iterator just after it and a generator finished by `return()`, or `null` after exhausting the iterator |
| Generators.FindIndexOf | src/iter.ts:163-172 | `findIndex(p)` returns the first matching index, leaving an array iterator just after it and a generator finished by `return()`, or `-1` after exhausting the iterator |
| Generators.MapOf | src/iter.ts:15-19 | the `map` loop yields `map(f)` of the input |
| Generators.FilterOf | src/iter.ts:80-86 | the `filter` loop yields `filter(p)` of the input |
| Generators.SkipOf | src/iter.ts:95-103 | the `skip` loop with its counter yields the input without its first `n` elements |
| Generators.TakeOf | src/iter.ts:105-113 | the `take` loop yields the first `min(n, len)` elements (none for `n <= 0`); when the input has more, it has already pulled the one after them, so an array iterator is left just after that element and a generator is finished by `return()` |
| Generators.TakeWhileOf | src/iter.ts:138-145 | the `takeWhile` loop yields the longest prefix satisfying `f`; it stops at the first failing element, leaving an array iterator just after it and a generator finished by `return()` |
| Generators.SkipWhileOf | src/iter.ts:125-136 | the `skipWhile` loops yield the as-written result: the array behaviour over an array or array iterator, and only the "first" element over a generator |
| Generators.PairwiseOf | src/iter.ts:242-251 | the `pairwise` loop yields each element with its successor |
| Generators.MinByOf | src/iter.ts:293-302 | the `minBy` loop returns `minBy(cf)` of the input |
| Generators.MaxByOf | src/iter.ts:304-313 | the `maxBy` loop returns `maxBy(cf)` of the input |
| Generators.MinMaxByOf | src/iter.ts:315-328 | the `minMaxBy` loop returns both extremes |
| Generators.MinByScanOf | src/iter.ts:330-341 | the `minByScan` loop yields the as-written scan |
| Generators.MaxByScanOf | src/iter.ts:343-354 | the `maxByScan` loop yields the as-written scan |
| Generators.DistinctUntilChangedOf | src/iter.ts:424-432 | the `distinctUntilChanged` loop yields the input without neighbours equal by `comp` |
| Generators.ShiftTimes | src/iter.ts:380 | `step` shifts drop the first `min(max(step, 0), len)` elements of the window |
| Generators.GroupedOf | src/iter.ts:373-384 | the `grouped` loop with its mutable window yields `grouped(n, step)` of the input |
| Generators.Add | src/iter.ts:218-220 | one step of the `groupBy` loop adds the element under its key |
| Generators.GroupByOf | src/iter.ts:214-224 | the `groupBy` loop builds `groupBy(f)` of the input |
| Generators.EnumerateOf | src/iter.ts:459-462 | the `enumerate` loop pairs each element with its index |
| Generators.RangeOf | src/iter.ts:454-456 | the `range` loop yields `range(start, end, step)` |
| Forks.TeeAndDrain | src/common.mjs:25-49 | reading one fork of `tee(xs)` to the end yields all of `xs`, and the other fork still replays all of it |
| Forks.DrainBoth | src/common.mjs:25-49 | reading both forks of a tee one after the other gives each the whole input |
| Forks.PartitionOf | src/iter.ts:88-93 | `partition(p)` over any iterable gives the two filters of its elements |
| Forks.PartitionAtOf | src/iter.ts:116-121 | `partitionAt(n)` over any iterable gives `take(n)` and `skip(n)` of its elements |
| Forks.PartitionWhileOf | src/iter.ts:147-152 | `partitionWhile(f)` over an array gives the as-written halves; over an iterator the second half, a `skipWhile` on a tee branch, holds only the "first" element |
| Forks.DrainCopy | test/iter.test.ts:34-47 | reading one copy of the `teeN` chain to its end yields the whole source, and every later copy and the last iterable still replay all of it |
| Forks.DrainEach | test/iter.test.ts:34-47 | reading every copy of the `teeN` chain to its end, first to last, gives each the whole source |
| Forks.TeeNDrained | src/common.mjs:76-85 | `teeN(it, n)` with its `max(n, 1)` results read to their ends one after another gives each all that `it` had left |
| Forks.Unzip2Of | src/iter.ts:193-198 | `unzip2()` over any iterable gives the two components of its pairs |
| Forks.Unzip3Of | src/iter.ts:200-205 | `unzip3()` over any iterable, through `teeN(xs, 3)`, gives `unzip3` of its triples |
| Forks.UnzipOf | src/iter.ts:207-212 | `unzip(n)` over any iterable, through `teeN(xs, n)`, gives `unzip(n)` of its rows |
| Forks.RepeatOf | src/iter.ts:598-604 | `repeat(xs, n)` over any iterable, teeing `xs` afresh each round, yields its elements `n` times |
| Forks.CycleRounds | src/iter.ts:590-596 | the first `r` rounds of `cycle` are a prefix of the first `s >= r` rounds, and an empty input never yields anything |
| Forks.Product2Of | src/iter.ts:512-521 | `product2(as, bs)` over single-pass inputs, teeing `bs` per element of `as`, yields all pairs in lexicographic order |
| Forks.PairEach | src/iter.ts:515-520 | the loop over `as` pairs each element with a fresh fork of `bs`, and leaves `bs` replaying all its elements |
| Forks.Product2Snoc | src/iter.ts:515-520 | one more element of `as` appends its pairs with every `b` after the earlier pairs |
| Forks.Product3Of | src/iter.ts:523-543 | `product3(as, bs, cs)` over single-pass inputs yields all triples in lexicographic order |
| Forks.TeeRounds | src/iter.ts:533-534 | teeing `bs` once per element of `as` gives that many full copies of its elements |
| Forks.TripleEach | src/iter.ts:533-541 | the loops over `as` and `bs`, teeing `cs` for each pair, yield `product3` of the inputs |
| Forks.Product3Snoc | src/iter.ts:533-541 | one more element of `as` appends its triples after the earlier ones |
| Forks.Combinations2Of | src/iter.ts:551-562 | `combinations2(xs)` over any iterable yields exactly the pairs `i < j` in order |
| Forks.PairLater | src/iter.ts:555-561 | the loop pairs each `xs[i]` with `skip(i + 1)` of a fresh fork |
| Forks.Combinations2Next | src/iter.ts:558-560 | the pairs of element `i` with every later element extend the combinations of the rest |
| Scenarios.SomeStopsAtMatch | src/iter.ts:62-69 | over the array iterator of `[1, 2, 3]`, `some(x => x === 2)` is true and the next pull yields `3` (the cursor test of `some`) |
| Scenarios.EveryStopsAtFailure | src/iter.ts:71-78 | over the array iterator of `[1, 2, 3]`, `every(x => x < 2)` is false and the next pull yields `3` (the cursor test of `every`) |

## Left out

- Async twins (`asyncTee`, `asyncTeeN`, `asyncIterator`, `isAsyncIterator` and `src/async-iter.*`): promises have no Dafny counterpart. The sequential behaviour is the same as the sync code modelled here.
- `min`, `max`, `minMax`, `sum`: they rely on floating-point numbers and `±Infinity` sentinels.
- `sort`, `sortScan`, `unique`, `uniqueSorted`: they delegate to `Array.prototype.sort`, whose ordering is foreign library behaviour.
- `select` and `groupByKey`: they need dynamic property access on arbitrary objects. `pluck` is modelled for numeric keys on arrays.
- `product`, `combinations`, `combinations3`: stubs or untested.
- `tap`/`inspect` and `forEach`/`subscribe`: callbacks are pure functions here, so their only effect, the callback's side effect, cannot be shown.
- The build scripts under `scripts/`: file-system I/O for packaging.
- Callbacks are pure Dafny functions. A callback that throws or has side effects is not modelled.
- Lazy generators are modelled by the sequence they yield when drained. An operator output that is read only partly is not modelled.
- The `Generators` methods take an array, an array iterator or a generator, but not a tee branch. A branch is read through `Common.Pull` and `Common.Drain`.
- The forks in `Forks` are read one after the other, first to last. Any other reading order of two tee branches is covered by `TeeReplay`.
- `zip`, `zipOuter` and `interleave` are modelled as sequences over their inputs' elements. The pulls they make on other inputs after one is done are not modelled.
- `zip2`/`zip3` and `interleave2`/`interleave3` are `zip` and `interleave` with two or three inputs. Only `zip2`'s pair shape is modelled separately.
- The same iterator passed twice to one operator (aliasing): the source comments it out, and its test is skipped.
- `interleave()` with no inputs loops forever without yielding; `Constructors.Interleave` requires at least one input.
- Counts (`n`, `step`) are integers. JavaScript's fractional counts are not modelled.
- `Constructors.Range`: JavaScript numbers are doubles, so counting past 2^53 loses precision. The model counts with unbounded integers.
- `groupBy`: the insertion order of keys in the returned `Map` is not modelled. The result is a Dafny `map`.
- `cycle`: it never ends. It is modelled through `Forks.RepeatOf` with a number of rounds (`Forks.CycleRounds`), and it never yields on an empty input, where the source spins forever.
- The copies `teeN` returns are read one after the other, first to last (`Forks.DrainEach`), as its tests read them. Other reading orders of more than two copies are not modelled.
- `constantly` is stated through a bounded prefix (`Constructors.Constantly`), and `range` with its default end through a bound on the values taken.

## Findings

| source | as written | input that shows it | evidently intended | confidence | as-written member | corrected member |
|---|---|---|---|---|---|---|
| src/iter.ts:125-136 | when every element satisfies `f`, the last one is yielded again; on empty input `undefined` is yielded | `skipWhile(x => x < 10)([1, 2, 3])` yields `[3]`; `skipWhile(f)([])` yields `[undefined]` | nothing is yielded | not executed; high | Operators.SkipWhileAllSatisfy | Operators.SkipWhileIntended |
| src/iter.ts:129-134, 147-152 | on a generator, the `break` of the first loop calls `return()`, so the second loop yields nothing; `partitionWhile` on any iterator hits this because its fork is a generator | `skipWhile(x => x < 3)` over a generator of `1..5` yields only `3` | `3, 4, 5`, as over an array | not executed; high | Operators.SkipWhileGeneratorCut | Operators.PartitionWhileIntended |
| src/iter.ts:330-354 | `minByScan`/`maxByScan` yield nothing after the first element, so the first running extreme is lost | `minByScan(cf)([5])` yields nothing | `[5]`: the running extreme after every element, as `scan` does | not executed; medium | Folds.ExtremeScanDropsFirst | Folds.ExtremeScanIntended |

The operator methods model the code as written. The corrected definitions
sit beside them, with their intended properties proved.
