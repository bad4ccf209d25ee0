# BinaryTree, int2023_t and range adapters in Dafny

This project models three small C++ libraries and proves what their operations compute.

- **BinaryTree** (`tree.h`) is an ordered set. It is kept as an unbalanced binary search
  tree of nodes with `left`, `right` and `parent` pointers, plus one sentinel node `end_node_`.
  A template parameter picks the walk order of its iterators: in-order, pre-order or post-order.
  The sentinel caches two end nodes. `update_left` stores the left-deep leaf, the first
  post-order node, in post-order, and the leftmost node otherwise. `update_right` stores the
  last pre-order node in pre-order, and the rightmost node otherwise; in post-order that is
  not the walk's last node, which is the root in `end_node_.right`. In pre-order the last
  node points back at the sentinel.
- **int2023_t** (`number.cpp`) is a fixed-width signed integer of 253 bytes. It is stored
  big-endian, with `data[0]` the most significant byte, and read as two's complement.
  It has `+ - * /`, `==`, conversion from `int32_t` and from decimal text, and hexadecimal output.
- **Range adapters** (`utils.h` and the `*_adapter.h` files): `my_advance`, and the views and
  iterators of `Filter`, `Take`, `Drop`, `Transform` and `Values`.

How each part is modelled:

- **The tree**
  - The node pointers become an arena: three maps `left`, `right` and `parent` from node
    handles to handles. The handle `END` stands for the sentinel and `NIL` for a null pointer.
  - A ghost `Shape` datatype records the tree the pointers encode. Every operation is proved
    against `Shape`: the walk it produces, its in-order key sequence, and how `insert`, `cut`,
    `erase` and `clear` change it.
  - The class `BinTree.BinaryTree` holds that state. Its methods call heap-free methods
    (modules `TreeArena`, `TreeCut`, `TreeErase`, `TreeClear`, `TreeCopy`, `TreeSteps`) that
    follow the C++ code pointer assignment by pointer assignment. The exceptions are the
    corrected members named under "## Findings" (`get_next`, the leaf test of `cut`, and
    pre-order and post-order `++` and `--`), and `merge`, whose loop erases `begin()` on
    every round instead of going on from the iterator `erase` returns.
- **int2023_t**
  - A number is a `seq<Byte>`, or an `array<Byte>` where the source updates `data` in place.
  - Contracts are stated through `Value` (the unsigned reading) and `Signed` (the
    two's-complement reading). Each arithmetic operation is proved to give the exact result
    modulo 256^n.
  - The width `n` is a parameter. For int2023_t itself it is 253.
- **The range adapters**
  - Each underlying iterator is an index into a `seq<T>`. Every adapter iterator is a class
    with a mutable `cur`. Each view is a class whose fields are the two ends of its range.
  - The iterator category of the underlying range (`Forward`, `Bidirectional`,
    `RandomAccess`) is a parameter. So are the compile-time concepts `sized_sentinel_for`
    and `assignable_from`.

## Model

| member | source | states |
|---|---|---|
| BinTree.BinaryTree.constructor | BinTree_labwork8-MikhailLebedItmo/lib/tree.h:51-56 | The new tree is empty. It is valid, and every sentinel slot points at the sentinel. |
| BinTree.BinaryTree.Copy | BinTree_labwork8-MikhailLebedItmo/lib/tree.h:61-65 | The copy has the same shape, values, size and walk as `other`. |
| BinTree.Build | BinTree_labwork8-MikhailLebedItmo/lib/tree.h:72-96 | The range and initializer-list constructors give a valid tree. Its elements are the values inserted one by one into an empty set. Its shape, values and next handle are those of BuildFrom, the insertions replayed on the shape. |
| BinTree.BuildFrom | BinTree_labwork8-MikhailLebedItmo/lib/tree.h:418-452 | Replaying the insertions keeps every node of the shape holding a value, and never moves the next handle back. |
| BinTree.BuildExample | BinTree_labwork8-MikhailLebedItmo/test/tree_ut.cpp:18-26 | Building from {5, 1, 9, 10, -1, 15, 9, 33} stores seven values in ascending order. The repeated 9 is stored once. |
| BinTree.ExampleWalks | BinTree_labwork8-MikhailLebedItmo/test/tree_ut.cpp:28-46 | Building from {5, 3, 1, 4, 7, 10, 6} gives a tree whose pre-order walk yields 5, 3, 1, 4, 7, 6, 10 and whose post-order walk yields 1, 4, 3, 6, 10, 7, 5, as the tests expect. Its in-order walk yields the sorted values. |
| BinTree.AppendLargest | BinTree_labwork8-MikhailLebedItmo/lib/tree.h:418-452 | A value greater than every stored value is inserted last. |
| BinTree.BinaryTree.Size | BinTree_labwork8-MikhailLebedItmo/lib/tree.h:216-218 | `size()` is the number of stored elements and the length of the walk. |
| BinTree.BinaryTree.IsEmpty | BinTree_labwork8-MikhailLebedItmo/lib/tree.h:224-226 | `empty()` holds exactly when no element is stored. |
| BinTree.BinaryTree.Begin | BinTree_labwork8-MikhailLebedItmo/lib/tree.h:103-109 | `begin()` is the first position of the walk. It is `end()` exactly when the tree is empty. |
| BinTree.BinaryTree.End | BinTree_labwork8-MikhailLebedItmo/lib/tree.h:111-113 | `end()` is the last position of the cursor: the sentinel. |
| BinTree.BinaryTree.Deref | BinTree_labwork8-MikhailLebedItmo/lib/tree.h:578-580 | Dereferencing a real node gives the value that node holds, which is one of the stored elements. |
| BinTree.BinaryTree.Root | BinTree_labwork8-MikhailLebedItmo/lib/tree.h:305-319 | `get_root()` reads the sentinel slot of the walk order. It is END in an empty tree and the root of the shape otherwise. |
| BinTree.BinaryTree.FindFrom | BinTree_labwork8-MikhailLebedItmo/lib/tree.h:339-352 | The descent from a node returns END exactly when no equivalent value is in that subtree. Otherwise it returns a node of the subtree holding an equivalent value. |
| BinTree.BinaryTree.Find | BinTree_labwork8-MikhailLebedItmo/lib/tree.h:170-172 | `find(v)` is END exactly when no value equivalent to v is stored. Otherwise it is a node holding an equivalent value. |
| BinTree.BinaryTree.Insert | BinTree_labwork8-MikhailLebedItmo/lib/tree.h:152-168 | `inserted` holds exactly when v was missing. The elements become the sorted insertion of v, and the shape becomes the BST insertion of v. The size grows by one only on insertion. The returned iterator holds a value equivalent to v. Values already stored are kept. On insertion the fresh handle holds v and the next handle moves on by one; otherwise the state is unchanged. |
| BinTree.BinaryTree.Increment | BinTree_labwork8-MikhailLebedItmo/lib/tree.h:594-747 | `++` from position k of the walk reaches position k + 1 of the cursor. |
| BinTree.BinaryTree.Decrement | BinTree_labwork8-MikhailLebedItmo/lib/tree.h:594-747 | `--` from position k of the cursor, `end()` included, reaches position k - 1. |
| BinTree.BinaryTree.Erase | BinTree_labwork8-MikhailLebedItmo/lib/tree.h:184-198 | `erase(it)` cuts x from the shape and takes its value out of the sorted elements. The size drops by one, and x's handle leaves the values. It returns the old cursor's next position. |
| BinTree.BinaryTree.EraseValue | BinTree_labwork8-MikhailLebedItmo/lib/tree.h:174-182 | `erase(v)` returns 0 exactly when nothing equivalent to v was held. Afterwards nothing equivalent to v is held, and the size drops by the count returned. |
| BinTree.BinaryTree.EraseBegin | BinTree_labwork8-MikhailLebedItmo/lib/tree.h:201-204 | Erasing `begin()` removes the first element of the walk from the sorted elements. The size drops by one. |
| BinTree.BinaryTree.Merge | BinTree_labwork8-MikhailLebedItmo/lib/tree.h:200-206 | In the corrected form, `other` ends empty. The tree then holds exactly the values held by either tree before. |
| BinTree.BinaryTree.MergeSelf | BinTree_labwork8-MikhailLebedItmo/lib/tree.h:200-206 | `merge(*this)` with the corrected loop of Merge: each insert finds its value already held and each erase removes a node, so the tree ends empty. As written, the merge finding under "## Findings" applies here too: the pre-order tree 5(3, 8(-, 9)) keeps 8, whether `get_next` is corrected or not. |
| BinTree.BinaryTree.Clear | BinTree_labwork8-MikhailLebedItmo/lib/tree.h:236-243 | After `clear()` no node is left. The sentinel points at itself, and `begin() == end()`. |
| BinTree.EqualWalks | BinTree_labwork8-MikhailLebedItmo/lib/tree.h:145 | The `std::equal` loop over two walks of equal length holds exactly when they visit equal values in order. |
| BinTree.Equal | BinTree_labwork8-MikhailLebedItmo/lib/tree.h:140-150 | `==` holds exactly when the sizes are equal and both walks yield the same values. |
| TreeArena.UpdateLeft | BinTree_labwork8-MikhailLebedItmo/lib/tree.h:259-278 | The cache slot holds `LeftTarget`: in post-order `end_node_.left` gets the left-deep leaf, the first node of the walk; otherwise `end_node_.right` gets the leftmost node, which in pre-order is not the first node (that is the root, in `end_node_.left`). The links stay well formed. |
| TreeArena.UpdateRight | BinTree_labwork8-MikhailLebedItmo/lib/tree.h:280-303 | `end_node_.parent` holds `RightTarget`: the last pre-order node in pre-order, and the rightmost node otherwise. In post-order that is not the walk's last node, which is the root in `end_node_.right`. In pre-order the link back to the sentinel moves to the new last node. |
| TreeArena.Refresh | BinTree_labwork8-MikhailLebedItmo/lib/tree.h:427-428 | Both cache updates together put both caches in place. |
| TreeArena.InsertAt | BinTree_labwork8-MikhailLebedItmo/lib/tree.h:418-452 | The descent below `cur` adds a fresh node exactly when no equivalent value is in the subtree. Otherwise the state is unchanged and the node found is returned. |
| TreeArena.InsertTree | BinTree_labwork8-MikhailLebedItmo/lib/tree.h:152-168 | On the arena, the key sequence becomes the sorted insertion of v and the shape becomes the BST insertion of v. The arena stays valid. |
| TreeClear.FreeBelow | BinTree_labwork8-MikhailLebedItmo/lib/tree.h:504-515 | `recursive_free` takes exactly the nodes of the subtree out of the links and the values. |
| TreeClear.ClearArena | BinTree_labwork8-MikhailLebedItmo/lib/tree.h:236-243 | Only the sentinel is left. The next handle is kept. |
| TreeCopy.CopyChild | BinTree_labwork8-MikhailLebedItmo/lib/tree.h:518-537 | A real child is copied into a fresh node linked below `cur`. A null child, or the other tree's sentinel, becomes a null slot. No other node changes. |
| TreeCopy.CopyBelow | BinTree_labwork8-MikhailLebedItmo/lib/tree.h:517-538 | `recursive_copy` rebuilds the subtree with the same links and values. |
| TreeCopy.CopyArena | BinTree_labwork8-MikhailLebedItmo/lib/tree.h:540-563 | `copy(other)` gives a valid arena with the same shape, values and size. |
| TreeCut.UpdateParentFacts | BinTree_labwork8-MikhailLebedItmo/lib/tree.h:460-467 | The `update_parent` lambda redirects to n exactly those slots of o's parent that pointed at o. It touches no other node and allocates nothing. |
| TreeCut.CutLeaf | BinTree_labwork8-MikhailLebedItmo/lib/tree.h:468-473 | A leaf is unlinked from its parent, and the links encode the shape without it. |
| TreeCut.CutOnlyLeft | BinTree_labwork8-MikhailLebedItmo/lib/tree.h:474-479 | A node with only a left child is replaced by that child. |
| TreeCut.CutOnlyRight | BinTree_labwork8-MikhailLebedItmo/lib/tree.h:480-485 | A node with only a right child is replaced by that child. |
| TreeCut.GetNext | BinTree_labwork8-MikhailLebedItmo/lib/tree.h:321-337 | In the corrected form, the result is the leftmost node of the right subtree: the in-order successor. |
| TreeCut.CutTwo | BinTree_labwork8-MikhailLebedItmo/lib/tree.h:486-501 | A node with two children is replaced by its in-order successor. |
| TreeCut.Cut | BinTree_labwork8-MikhailLebedItmo/lib/tree.h:454-502 | `cut(x)` leaves links that encode `CutAt(t, x)`. Cutting the last node empties the tree. |
| TreeErase.RefreshFree | BinTree_labwork8-MikhailLebedItmo/lib/tree.h:190-195 | The tail of `erase` puts both caches in place, whatever the size, and frees x. |
| TreeErase.EraseAt | BinTree_labwork8-MikhailLebedItmo/lib/tree.h:184-198 | The shape becomes `CutAt(t, x)` and the size drops by one. The key at x's in-order rank leaves the key sequence. The result is the cursor's next position. |
| TreeSteps.CursorEnd | BinTree_labwork8-MikhailLebedItmo/lib/tree.h:111-113 | The sentinel is at the last position of the cursor and at no other. |
| TreeSteps.InNext | BinTree_labwork8-MikhailLebedItmo/lib/tree.h:655-668 | In-order `++` goes to the next position of the in-order walk. |
| TreeSteps.InPrev | BinTree_labwork8-MikhailLebedItmo/lib/tree.h:676-689 | In-order `--` goes to the previous position. From `end()` it goes to the last node. |
| TreeSteps.PreNext | BinTree_labwork8-MikhailLebedItmo/lib/tree.h:598-617 | The corrected pre-order `++` goes to the next position of the pre-order walk. |
| TreeSteps.PrePrev | BinTree_labwork8-MikhailLebedItmo/lib/tree.h:625-637 | The corrected pre-order `--` goes to the previous position. |
| TreeSteps.PostNext | BinTree_labwork8-MikhailLebedItmo/lib/tree.h:706-721 | The corrected post-order `++` goes to the next position of the post-order walk. |
| TreeSteps.PostPrev | BinTree_labwork8-MikhailLebedItmo/lib/tree.h:729-737 | The corrected post-order `--` goes to the previous position. |
| TreeSteps.Next | BinTree_labwork8-MikhailLebedItmo/lib/tree.h:594-747 | `++` for any walk order goes to the next position of the cursor. |
| TreeSteps.Prev | BinTree_labwork8-MikhailLebedItmo/lib/tree.h:594-747 | `--` for any walk order goes to the previous position of the cursor. |
| TreeShape.LeftmostIsInorderFirst | BinTree_labwork8-MikhailLebedItmo/lib/tree.h:261-265 | The leftmost node, which `update_left` caches in in-order, is the first node of the in-order walk. |
| TreeShape.LeftDeepLeafIsPostorderFirst | BinTree_labwork8-MikhailLebedItmo/lib/tree.h:266-276 | The leaf found by going left, or else right, is the first node of the post-order walk. |
| TreeShape.RightmostIsInorderLast | BinTree_labwork8-MikhailLebedItmo/lib/tree.h:297-301 | The rightmost node is the last node of the in-order walk. |
| TreeShape.RightDeepLeafIsPreorderLast | BinTree_labwork8-MikhailLebedItmo/lib/tree.h:282-296 | The leaf found by going right, or else left, is the last node of the pre-order walk. |
| TreeShape.WalkElems | BinTree_labwork8-MikhailLebedItmo/lib/tree.h:216-218 | Every walk visits exactly the nodes of the tree, as many times as the tree has nodes. |
| TreeShape.WalkNoDup | BinTree_labwork8-MikhailLebedItmo/lib/tree.h:594-747 | No walk visits a node twice. |
| TreeOrder.SortedInsertPresent | BinTree_labwork8-MikhailLebedItmo/lib/tree.h:451 | Inserting a value equivalent to a stored one changes nothing. |
| TreeOrder.SortedInsertAscending | BinTree_labwork8-MikhailLebedItmo/lib/tree.h:418-452 | After an insertion the sequence stays ascending. A missing value is added exactly once. |
| TreeOrder.BstInsertKeys | BinTree_labwork8-MikhailLebedItmo/lib/tree.h:418-452 | The in-order keys after a BST insertion are the sorted insertion into the old keys. |
| TreeOrder.SortedRemoveAt | BinTree_labwork8-MikhailLebedItmo/lib/tree.h:174-182 | Removing v drops exactly the one position that holds a value equivalent to v. |
| TreeOrder.SortedRemoveMissing | BinTree_labwork8-MikhailLebedItmo/lib/tree.h:174-182 | Removing a value that is not held changes nothing. |
| TreeOrder.SortedRemoveInsert | BinTree_labwork8-MikhailLebedItmo/lib/tree.h:152-182 | Removing a freshly inserted value undoes the insertion. |
| TreeOrder.HoldsAfterRemove | BinTree_labwork8-MikhailLebedItmo/lib/tree.h:174-198 | After a removal, exactly the values not equivalent to v are still held. |
| TreeOrder.HoldsAfterInsert | BinTree_labwork8-MikhailLebedItmo/lib/tree.h:152-168 | After an insertion, exactly the old values and v are held. |
| TreeOrder.MergeStep | BinTree_labwork8-MikhailLebedItmo/lib/tree.h:200-206 | Moving one value from `other` into the tree keeps the union of the two held. |
| Number.Zero | int2023_t/lib/number.cpp:6-8 | A new number has every byte zero. |
| Number.AddInPlace | int2023_t/lib/number.cpp:51-60 | `lhs += rhs` leaves Value(lhs) + Value(rhs) modulo 256^n. |
| Number.Add | int2023_t/lib/number.cpp:46-49 | `lhs + rhs` is the sum modulo 256^n, at the same width. |
| Number.AddByteInPlace | int2023_t/lib/number.cpp:67-81 | `lhs += b` with early exit is Value(lhs) + b modulo 256^n. |
| Number.AddByte | int2023_t/lib/number.cpp:62-65 | `lhs + b` is Value(lhs) + b modulo 256^n. |
| Number.Increment | int2023_t/lib/number.cpp:83-85 | `++x` adds one modulo 256^n. |
| Number.Negate | int2023_t/lib/number.cpp:91-98 | Negation by complement plus one is -Value(x) modulo 256^n. |
| Number.Sub | int2023_t/lib/number.cpp:87-89 | `lhs - rhs` is the difference modulo 256^n. |
| Number.ShiftDigitsToLeft | int2023_t/lib/number.cpp:100-110 | Shifting by `shift` digits multiplies by 256^shift modulo 256^n. |
| Number.MulByteInPlace | int2023_t/lib/number.cpp:127-136 | `lhs *= b` is Value(lhs) * b modulo 256^n, with every carry below 256. |
| Number.MulByte | int2023_t/lib/number.cpp:122-125 | `lhs * b` is Value(lhs) * b modulo 256^n. |
| Number.Mul | int2023_t/lib/number.cpp:112-120 | `lhs * rhs` is the product modulo 256^n. |
| Number.SumWithShift | int2023_t/lib/number.cpp:138-146 | The result is lhs + rhs * 256^shift modulo 256^n. A shift of at least the width leaves lhs unchanged. |
| Number.FirstDigit | int2023_t/lib/number.cpp:166-176 | The result is the index of the first nonzero byte, or the last index when every byte is zero. |
| Number.Len | int2023_t/lib/number.cpp:148-150 | `len` is the number of base-256 digits the unsigned value needs, and at least 1. |
| Number.IsNegative | int2023_t/lib/number.cpp:152-155 | The top bit of `data[0]` is set exactly when the two's-complement value is negative. |
| Number.Abs | int2023_t/lib/number.cpp:157-164 | `abs` gives the magnitude of the two's-complement value modulo 256^n. It is exact except for the most negative value. |
| Number.Equal | int2023_t/lib/number.cpp:213-222 | `==` holds exactly when the bytes are equal, and so exactly when the values are equal. |
| Number.NotEqual | int2023_t/lib/number.cpp:224-226 | `!=` holds exactly when the bytes differ. |
| Number.HexDigit | int2023_t/lib/number.cpp:228-235 | For 0..15 the result is the upper-case hexadecimal digit. |
| Columns.ComplementValue | int2023_t/lib/number.cpp:91-98 | A byte string plus its byte-wise complement is 256^n - 1. |
| Columns.ShiftedValue | int2023_t/lib/number.cpp:100-110 | Moving digits `shift` places up with zeros filling in is multiplication by 256^shift modulo 256^n. |
| Columns.ProductCarry | int2023_t/lib/number.cpp:127-136 | The column sum of `*=` stays below 2^16, so its carry is a byte. |
| Int2023.ValueInjective | int2023_t/lib/number.cpp:213-222 | Byte strings of one length are equal exactly when their values are equal. |
| NumberConvert.FromInt | int2023_t/lib/number.cpp:10-25 | `from_int(i)` reads back as i in two's complement, for every `int32_t` except INT32_MIN. |
| NumberConvert.FromString | int2023_t/lib/number.cpp:27-44 | `from_string` gives the decimal value parsed, with an optional '-', modulo 256^n. It is exact when that value fits. |
| NumberConvert.DecimalRoundTrip | int2023_t/lib/number.cpp:27-44 | Horner's rule reads the decimal text of k back as k. |
| NumberConvert.ParsedDecimal | int2023_t/lib/number.cpp:27-44 | `from_string` reads the decimal text of k as k, and with a leading '-' as -k. |
| NumberConvert.HexOfDigit | int2023_t/lib/number.cpp:228-235 | Reading back the digit written for d gives d. |
| NumberConvert.HexString | int2023_t/lib/number.cpp:237-253 | `operator<<` writes the upper-case hexadecimal numeral of the unsigned value, with no leading zero. |
| NumberDiv.TruncDivRemainder | int2023_t/lib/number.cpp:178-211 | The C++ quotient leaves a remainder smaller than the divisor in magnitude, with the dividend's sign. |
| NumberDiv.QuotientDigit | int2023_t/lib/number.cpp:190-197 | The inner loop gives the quotient digit of lhs_abs by rhs_abs * 256^shift, and leaves the remainder. |
| NumberDiv.LongDivide | int2023_t/lib/number.cpp:186-198 | The outer loop writes the digits of the quotient of the magnitudes, and leaves the remainder in lhs_abs. |
| NumberDiv.Align | int2023_t/lib/number.cpp:200-204 | The corrected reformat loop moves the quotient digits to the low end, in order, with zeros in front. |
| NumberDiv.AlignAsWritten | int2023_t/lib/number.cpp:200-204 | The loop as written does the same when the quotient is shorter than the width. When it fills every byte, every digit is cleared. |
| NumberDiv.LoopStart | int2023_t/lib/number.cpp:179-186 | With the corrected skip test, the outer loop starts where it yields the whole quotient. |
| NumberDiv.DivideMagnitudes | int2023_t/lib/number.cpp:179-204 | The long division of the magnitudes yields their quotient. |
| NumberDiv.Div | int2023_t/lib/number.cpp:178-211 | The corrected `/` is the C++ quotient (truncated toward zero) modulo 256^n. It is exact except for MIN / -1. |
| NumberDiv.SkipAsWritten | int2023_t/lib/number.cpp:184-185 | `skip_first_iteration` as written holds exactly when lhs_abs needs every byte and the divisor's leading digit has its top bit set. |
| NumberProps.SumSigned | int2023_t/lib/number.cpp:46-60 | The modular sum is the signed sum wrapped to the width. It is exact when that sum fits. |
| NumberProps.DifferenceSigned | int2023_t/lib/number.cpp:87-89 | The modular difference is the signed difference wrapped to the width. It is exact when that difference fits. |
| NumberProps.NegationSigned | int2023_t/lib/number.cpp:91-98 | Negation is exact except for the most negative value, which it leaves unchanged. |
| NumberProps.ProductSigned | int2023_t/lib/number.cpp:112-136 | The modular product is the signed product wrapped to the width. It is exact when that product fits. |
| NumberProps.NegateTwice | int2023_t/lib/number.cpp:91-98 | Negating twice gives back the original bytes. |
| NumberProps.AddNegation | int2023_t/lib/number.cpp:46-98 | x + (-x) is zero. |
| NumberProps.SubThenAdd | int2023_t/lib/number.cpp:46-89 | (x - y) + y is x. |
| NumberProps.ProductQuotient | int2023_t/lib/number.cpp:178-211 | The C++ quotient undoes an exact product. |
| NumberProps.MulThenDiv | int2023_t/lib/number.cpp:112-211 | (x * y) / y is x when the product fits and y is not zero. |
| RangesAdvance.AdvanceBy | Ranges_labwork9-MikhailLebedItmo/lib/utils.h:4-21 | `my_advance(it, n)` moves n places. A forward iterator does not move back. |
| RangesAdvance.AdvanceTo | Ranges_labwork9-MikhailLebedItmo/lib/utils.h:23-36 | `my_advance(it, bound)` lands on bound by each of its three routes. |
| RangesAdvance.AdvanceBounded | Ranges_labwork9-MikhailLebedItmo/lib/utils.h:38-59 | `my_advance(it, n, bound)` lands where the sized jump or the bounded stepping puts it. |
| RangesAdvance.BoundedForward | Ranges_labwork9-MikhailLebedItmo/lib/utils.h:38-59 | With n >= 0 and bound ahead, both routes stop at min(it + n, bound). |
| RangesAdvance.BoundedBackward | Ranges_labwork9-MikhailLebedItmo/lib/utils.h:38-59 | With n <= 0, bound behind and a bidirectional iterator, both routes stop at max(it + n, bound). |
| RangesAdvance.AdvanceZero | Ranges_labwork9-MikhailLebedItmo/lib/utils.h:4-59 | Advancing by zero, bounded or not, does not move the iterator. |
| RangesFilter.FirstMatch | Ranges_labwork9-MikhailLebedItmo/lib/filter_adapter.h:111-116 | The constructor's loop stops at the first matching position, or at `last`. |
| RangesFilter.FilterIterator.Next | Ranges_labwork9-MikhailLebedItmo/lib/filter_adapter.h:20-26 | `++` goes to the next match after cur, or to `last`, and skips only non-matches. |
| RangesFilter.FilterIterator.Prev | Ranges_labwork9-MikhailLebedItmo/lib/filter_adapter.h:77-83 | `--` goes to the nearest earlier match, which must exist. |
| RangesFilter.FilterIterator.Get | Ranges_labwork9-MikhailLebedItmo/lib/filter_adapter.h:34-36 | `*it` at a match is the first element the rest of the filtered range yields. |
| RangesFilter.IteratorEquality | Ranges_labwork9-MikhailLebedItmo/lib/filter_adapter.h:38-44 | `==` on iterators of one view is equality of positions, an equivalence, and an iterator equals `end()` exactly when it stands at `last`. `!=` is its negation. |
| RangesFilter.FilterView.constructor | Ranges_labwork9-MikhailLebedItmo/lib/filter_adapter.h:111-116 | The view's `beg` is the first match in the range, or `last`. |
| RangesFilter.FilterView.Begin | Ranges_labwork9-MikhailLebedItmo/lib/filter_adapter.h:118-124 | `begin()` is a new iterator at `beg`, bounded by `last`. |
| RangesFilter.FilterView.End | Ranges_labwork9-MikhailLebedItmo/lib/filter_adapter.h:126-132 | `end()` is a new iterator at `last`. |
| RangesFilter.Collect | Ranges_labwork9-MikhailLebedItmo/lib/filter_adapter.h:108-155 | A range-for over the view yields exactly the matching elements, in order. |
| RangesFilter.CollectReverse | Ranges_labwork9-MikhailLebedItmo/lib/filter_adapter.h:77-132 | Walking back from `end()` yields the matching elements in reverse order. |
| RangesFilter.FilteredAppend | Ranges_labwork9-MikhailLebedItmo/lib/filter_adapter.h:20-26 | Filtering distributes over concatenation. |
| RangesFilter.FilteredExtremes | Ranges_labwork9-MikhailLebedItmo/lib/filter_adapter.h:20-26 | If every element matches, filtering keeps the range. If none matches, it gives an empty one. |
| RangesFilter.FilteredSkip | Ranges_labwork9-MikhailLebedItmo/lib/filter_adapter.h:113-115 | Skipping non-matching positions loses nothing from the filtered range. |
| RangesFilter.FilteredMatch | Ranges_labwork9-MikhailLebedItmo/lib/filter_adapter.h:34-36 | A filtered range that starts at a match yields that match first. |
| RangesTake.TakeLast | Ranges_labwork9-MikhailLebedItmo/lib/take_adapter.h:9-22 | Both routes of the constructor put `last` at beg + min(n, length). |
| RangesTake.TakeView.constructor | Ranges_labwork9-MikhailLebedItmo/lib/take_adapter.h:9-22 | The view keeps `beg` and ends at beg + min(n, length). |
| RangesTake.TakeOf | Ranges_labwork9-MikhailLebedItmo/lib/take_adapter.h:42-45 | `| Take(n)` yields the first min(n, length) elements. When n is at least the length, it yields the whole range. |
| RangesDrop.DropBegin | Ranges_labwork9-MikhailLebedItmo/lib/drop_adapter.h:36-37 | The bounded advance puts the view's start at min(beg + shift, last). |
| RangesDrop.DropView.constructor | Ranges_labwork9-MikhailLebedItmo/lib/drop_adapter.h:14 | The view keeps the two ends it is given. |
| RangesDrop.DropOf | Ranges_labwork9-MikhailLebedItmo/lib/drop_adapter.h:34-39 | `| Drop(shift)` yields the elements after the first `shift`. It yields nothing once shift reaches the length. |
| RangesSeq.ReversedCons | Ranges_labwork9-MikhailLebedItmo/lib/filter_adapter.h:77-83 | Reversal turns a prepended element into an appended one. |
| RangesTransform.TransformIterator.Get | Ranges_labwork9-MikhailLebedItmo/lib/transform_adapter.h:32-34 | `*it` is f of the element at cur. |
| RangesTransform.TransformIterator.At | Ranges_labwork9-MikhailLebedItmo/lib/transform_adapter.h:152-154 | `it[n]` is f of the element n places on. |
| RangesTransform.IteratorOrder | Ranges_labwork9-MikhailLebedItmo/lib/transform_adapter.h:156-178 | `<` orders iterators strictly and totally by position: exactly one of `a < b`, `a == b`, `b < a` holds, `<` is transitive, and `a <= b` holds exactly when not `b < a`. |
| RangesTransform.TransformIterator.Next | Ranges_labwork9-MikhailLebedItmo/lib/transform_adapter.h:21-24 | `++` moves one place on. |
| RangesTransform.TransformIterator.Prev | Ranges_labwork9-MikhailLebedItmo/lib/transform_adapter.h:131-134 | `--` moves one place back. |
| RangesTransform.TransformIterator.AddAssign | Ranges_labwork9-MikhailLebedItmo/lib/transform_adapter.h:142-145 | `+= n` moves n places on. |
| RangesTransform.TransformIterator.SubAssign | Ranges_labwork9-MikhailLebedItmo/lib/transform_adapter.h:147-150 | `-= n` moves n places back. |
| RangesTransform.TransformIterator.Plus | Ranges_labwork9-MikhailLebedItmo/lib/transform_adapter.h:180-190 | `it + n` and `n + it` are new iterators n places on. The operand does not move. |
| RangesTransform.TransformIterator.Minus | Ranges_labwork9-MikhailLebedItmo/lib/transform_adapter.h:192-202 | `it - n`, and `n - it` as the source defines it, are new iterators n places back. |
| RangesTransform.TransformView.Begin | Ranges_labwork9-MikhailLebedItmo/lib/transform_adapter.h:214-222 | `begin()` is a new iterator at `beg`. |
| RangesTransform.TransformView.End | Ranges_labwork9-MikhailLebedItmo/lib/transform_adapter.h:224-232 | `end()` is a new iterator at `last`. |
| RangesTransform.Collect | Ranges_labwork9-MikhailLebedItmo/lib/transform_adapter.h:208-254 | A range-for over the view yields f of every element, in order. |
| RangesTransform.CollectReverse | Ranges_labwork9-MikhailLebedItmo/lib/transform_adapter.h:127-134 | Walking back from `end()` yields f of every element, in reverse order. |
| RangesTransform.MappedAppend | Ranges_labwork9-MikhailLebedItmo/lib/transform_adapter.h:32-34 | Mapping distributes over concatenation. |
| RangesTransform.MappedCompose | Ranges_labwork9-MikhailLebedItmo/lib/transform_adapter.h:251-254 | Two transforms in a row are one transform by the composed function. |
| RangesValues.ValuesIterator.Get | Ranges_labwork9-MikhailLebedItmo/lib/values_adapter.h:31-33 | `*it` is the second component of the element at cur. |
| RangesValues.ValuesIterator.At | Ranges_labwork9-MikhailLebedItmo/lib/values_adapter.h:147-149 | `it[n]` is the second component n places on. |
| RangesValues.IteratorEquality | Ranges_labwork9-MikhailLebedItmo/lib/values_adapter.h:35-41 | `==` compares positions and is an equivalence. `!=` is its negation. |
| RangesValues.ValuesIterator.Next | Ranges_labwork9-MikhailLebedItmo/lib/values_adapter.h:20-23 | `++` moves one place on. |
| RangesValues.ValuesIterator.Prev | Ranges_labwork9-MikhailLebedItmo/lib/values_adapter.h:126-129 | `--` moves one place back. |
| RangesValues.ValuesIterator.AddAssign | Ranges_labwork9-MikhailLebedItmo/lib/values_adapter.h:137-140 | `+= n` moves n places on. |
| RangesValues.ValuesIterator.SubAssign | Ranges_labwork9-MikhailLebedItmo/lib/values_adapter.h:142-145 | `-= n` moves n places back. |
| RangesValues.ValuesIterator.Plus | Ranges_labwork9-MikhailLebedItmo/lib/values_adapter.h:153-163 | `it + n` and `n + it` are new iterators n places on. |
| RangesValues.ValuesIterator.Minus | Ranges_labwork9-MikhailLebedItmo/lib/values_adapter.h:165-175 | `it - n` and `n - it` are new iterators n places back. |
| RangesValues.ValuesView.Begin | Ranges_labwork9-MikhailLebedItmo/lib/values_adapter.h:188-196 | `begin()` is a new iterator at `beg`. |
| RangesValues.ValuesView.End | Ranges_labwork9-MikhailLebedItmo/lib/values_adapter.h:198-206 | `end()` is a new iterator at `last`. |
| RangesValues.Collect | Ranges_labwork9-MikhailLebedItmo/lib/values_adapter.h:183-215 | A range-for over `| Values()` yields the second components, in order. |
| RangesValues.CollectReverse | Ranges_labwork9-MikhailLebedItmo/lib/values_adapter.h:126-129 | Walking back from `end()` yields the second components in reverse order. |
| RangesValues.SecondsAsTransform | Ranges_labwork9-MikhailLebedItmo/lib/values_adapter.h:31-33 | Values is Transform by the projection onto the second component. |

## Left out

- The allocator and `rebind_alloc` are not modelled. Nodes are handles in a map, and the
  handle counter stands for allocation. The destructor is not modelled either.
- `swap`, `max_size`, `key_comp` and `get_allocator` are not modelled. Neither is assignment
  by copy-and-swap (tree.h:98-101), which has no logic beyond Copy.
- `value_comp` is not modelled: as written it calls itself forever.
- `rbegin()`/`rend()` and the reverse iterators are not modelled. They are
  `std::reverse_iterator` around Decrement and Increment.
- The private `lower_bound`, `upper_bound`, `count` and `contains` members are not modelled.
  The class never calls them.
- Postfix `++` and `--` are not modelled, in the tree or in the adapters. They are the prefix
  operator plus a copy.
- Stream output `operator<<` in number.cpp: only the text it writes is modelled (HexString),
  not the stream itself.
- BinTree.BinaryTree.Merge: requires `other != this`. The source has no such check. With the
  corrected loop of Merge, `merge(*this)` empties the tree, and BinTree.BinaryTree.MergeSelf
  models that call apart, because the two cases end in different states. As written, the
  merge finding under "## Findings" applies to `merge(*this)` too.
- Number.HexDigit: the contract covers only 0..15. Those are the values its callers pass.
- Number.ShiftDigitsToLeft: requires shift <= the width. A larger shift would make the
  unsigned loop bound wrap around.
- Number.SumWithShift: requires shift < 2^31, the range of its `int` counter.
- NumberDiv.Div: requires a width below 2^31 and a nonzero divisor. Division by zero is
  undefined in the source.
- NumberConvert.FromInt: excludes INT32_MIN, for which `abs` is undefined.
- NumberDiv.QuotientDigit: requires the quotient digit to be below 256. The outer loop
  guarantees this. The `uint8_t` counter's bound of 255 is therefore never what stops the
  loop.
- reverse_adapter.h, adapter_concepts.h and the `Keys` and pipeline adapters are not part of
  this model.
- Standard algorithms run through views (`std::sort` and `std::reverse` through a
  `Transform` view, `std::count`) are not modelled. They depend on reference aliasing, which
  an immutable `seq` cannot express.
- The forward, bidirectional and random-access iterator classes of each adapter are one
  Dafny class. The weaker classes are that class with fewer members.
- RangesValues: only `Values<1>` over pairs is modelled. Elements are not writable through
  the iterator, since the underlying sequence is immutable.
- Predicates and transform functions are total Dafny functions without side effects.
- The iterator category and the `sized_sentinel_for` and `assignable_from` concepts are
  parameters. The compiler decides them in the source.
- `std::remove_cvref` without `_t` in values_adapter.h:13 is a type-level slip. It has no
  behaviour to model.
- The random-access Values iterator has no `<`, `<=`, `>` or `>=` in the model. Its
  `operator<=>` at values_adapter.h:151 is defaulted with return type `bool`, which is not a
  comparison category, so C++20 defines it as deleted. Only the `==` and `!=` declared
  alongside it exist, and RangesValues.IteratorEquality models those.

## Findings

| source | as written | input that shows it | evidently intended | confidence | as-written member | corrected member |
|---|---|---|---|---|---|---|
| BinTree_labwork8-MikhailLebedItmo/lib/tree.h:321-337 | `get_next` can return the left child of the node being cut, not its successor. | Tree 5(3, 8(7, -)): get_next(5) gives 3. | It returns 7, the leftmost node of the right subtree. | not executed | TreeFindings.GetNextCounterexample | TreeCut.GetNext |
| BinTree_labwork8-MikhailLebedItmo/lib/tree.h:468-469 | The leaf test of `cut` treats the link to the sentinel as a child. | Pre-order tree 10(5(3, 7), -), cut 7: 7 is not taken for a leaf, and the right slot of 5 keeps END. | A leaf is a node with two empty subtrees. | not executed | TreeFindings.CutLeafCounterexample | TreeCut.Cut |
| BinTree_labwork8-MikhailLebedItmo/lib/tree.h:611-613 | Pre-order `++` climbs back into a right child it has just left. | Insert 10, 2, 20, 5, 4: ++ from 4 gives 5. | It gives 20. | not executed | TreeFindings.PreNextCounterexample | TreeSteps.PreNext |
| BinTree_labwork8-MikhailLebedItmo/lib/tree.h:706-721 | Post-order `++` from a left child whose parent has no right child steps onto null. | Insert 2, 1: ++ from 1 gives null. | It gives 2. | not executed | TreeFindings.PostNextCounterexample | TreeSteps.PostNext |
| BinTree_labwork8-MikhailLebedItmo/lib/tree.h:729-737 | Post-order `--` from a leaf reads its null left child. | Insert 2, 1, 3: -- from 3 gives null. | It gives 1. | not executed | TreeFindings.PostPrevCounterexample | TreeSteps.PostPrev |
| BinTree_labwork8-MikhailLebedItmo/lib/tree.h:625-637 | Pre-order `--` follows only right links into the left sibling's subtree. | Insert 5, 3, 1, 8: -- from 8 gives 3. | It gives 1, the last pre-order node of the sibling's subtree. | not executed | TreeFindings.PrePrevCounterexample | TreeSteps.PrePrev |
| BinTree_labwork8-MikhailLebedItmo/lib/tree.h:200-206 | `merge` goes on from the iterator `erase` returns: the erased node's old successor. A node the cut moves to an earlier walk position is never visited again. | `other` = pre-order 5(3, 8(-, 9)): 8 stays in `other`. `get_next(5)` as written already gives 8 here (TreeFindings.MergeGetNext). | Every element of `other` is moved. | not executed | TreeFindings.MergeCounterexample | BinTree.BinaryTree.Merge |
| int2023_t/lib/number.cpp:200-204 | The reformat loop clears each digit's old place after copying it. When the quotient fills every byte, the two places are the same. | 2^2016 / 1: the quotient is 0. | The digits move to the low end and none are lost. | not executed | NumberDiv.FullWidthQuotient | NumberDiv.Align |
| int2023_t/lib/number.cpp:184-185 | `skip_first_iteration` also holds when the dividend equals the divisor moved to the top of the width. Then it skips the only digit. | INT2023_MIN / INT2023_MIN: the quotient is 0. | The quotient is 1. | not executed | NumberDiv.SkipLosesDigit | NumberDiv.LoopStart |
