# bananas: a verified model of the object pool, evaluator, lexer and interner

bananas is a small Kernel-style Lisp interpreter written in C. This project
models its four core parts in Dafny and proves properties of each:

- **The object layer (obj.c)** is modelled in `objects.dfy` and `pool.dfy`.
  - Storage is a static pool of `MAX_OBJS` (10000) records. Intrusive `next`/`prev` links thread them onto a free list and a used list, and two counters track the lists. obj.c asserts that the counters sum to `MAX_OBJS`.
  - Records are reference counted. `unref` destroys a record whose count reaches zero, which releases the values it holds in a cascade, and returns the record to the pool.
  - Values are tagged immediates (nil, true) or handles of records. Records are symbols, numbers, pairs, primitives, closures and environments.
  - `car`/`cdr`/`set_car`/`set_cdr`, `member`, `assoc`, `is_eq` and `is_equal` work on these values.
  - Environments are association lists. `def` binds a name locally and `defined` looks it up through the parent chain.
  - `objects.dfy` holds the values and the read-only operations on a snapshot of the pool, as functions and lemmas.
  - `pool.dfy` holds class `Heap`, which owns the arrays (records, counts, `next`, `prev`) and the counters. Its methods take obj.c's steps in obj.c's order. The exception is allocation: the constructors and `def` allocate through the corrected `pool_alloc` (see "## Findings").
- **The evaluator (prim.c)** is modelled in `kernel.dfy`.
  - `eval` looks up symbols, combines pairs and returns every other value as it is.
  - A combination's evaluated head may be one of three kinds. A primitive operative receives the operands unevaluated. A compound operative is entered: its formals are matched in a fresh child of its static environment. An applicative has its operands evaluated by `mapcar_eval` and its underlying operative combined with the results.
  - The module also covers `match`, the built-in primitives and the registration table `s_prim_infos` with `prim_init`.
  - Each operation is a specification function over an abstract heap. Class `Interp` runs the same steps as methods, and each method is proved to end in the outcome and heap its function gives.
- **The lexer (lex.c)** is modelled in `lexer.dfy`.
  - It scans a NUL-terminated string and pushes typed spans into a growable token vector.
  - The `TokenVec` class and the rule methods are proved equal to the specification function `Scan`. Lemmas then prove what `Scan` produces.
- **The symbol interner (symbol.c)** is modelled in `symbols.dfy`.
  - It is a fixed table of `MAX_SYMBOLS` (1000) slots with linear-scan `find` and appending `add`.
  - `make_symbol` combines them as find-then-add, which the model proves gives equal names equal ids and stores no duplicates.

Modelling choices:

- **Faults.** A failed C `assert` is an explicit outcome. In the object layer it is `AssertFails`, or `ok == false` from a method. In the evaluator it is `Fault`.
  - These assert paths are modelled as outcomes: `car`/`cdr` of a non-pair, `set_car`/`set_cdr` of a non-pair, `def`/`defined` of a non-symbol, and a count falling below zero in `unref`. So are a dotted list in `member`/`assoc`/`def` and a pool that runs out inside `def`.
  - Some preconditions exclude inputs on which C asserts or never returns: allocating from an empty pool, nil as an environment before g_env exists, and cyclic lists. "## Left out" lists each one.
- **Evaluator heap.** prim.c is written against an object layer that is not part of this repository (`make_environment`, `env_define`, `env_lookup`, `make_applicative`, `KINERT`, and so on). `kernel.dfy` therefore uses an abstract heap: a sequence of records that never shrinks. New records are appended. A pair's fields and an environment's bindings may be rewritten in place. No record disappears or changes kind.
  - Environments hold their bindings directly. `env_define` and `env_lookup` get the behaviour of obj.c's `def` and `defined`.
  - `is_eq` is used as a boolean predicate, the way prim.c:87 uses it.
  - `Kernel.IsEq` and `Kernel.EqualWithin` are a second definition of is_eq and is_equal, over this heap, beside `Objects.IsEq` and `Objects.IsEqualWithin`. Case by case they follow the same code in obj.c:382-410: immediates by identity, symbols by name (interning makes this the id comparison), numbers by payload, other records by address, and pairs field by field. The two heaps are different types, so no lemma relates the two definitions.
- **Fuel.** `eval` need not terminate, so evaluation carries fuel, and `NoFuel` is the outcome of a run that would not have finished.
- **pool_free as written.**
  - It relinks the freed record onto the front of the *used* list, not the free list (obj.c:76-79).
  - It does not move the used head off a record being removed, so freeing the used head links that record to itself.
  - The model keeps both behaviours and proves the counter property asserted at line 82.
  - Records therefore never return to the free list. The free list is always the untouched suffix of the pool, threaded in index order.
- **make_prim** never sets the reference count. With no recycling, the count is the 0 left by static initialisation.
- **def on an empty plist** stores the new list directly, without a `ref` (obj.c:440). Its first cell keeps count 0. The model records this in `Pool.Heap.StartPlist`.

## Model

| member | source | states |
|---|---|---|
| `Symbols.FirstIndexOf` | symbol.c:18-26 | the smallest index holding the string, and -1 exactly when it is absent |
| `Symbols.FirstIndexOfAppend` | symbol.c:28-38 | after appending s, every string already stored keeps its index, s is found at the old count, and any other string is still -1 |
| `Symbols.FirstIndexOfExtend` | symbol.c:18-38 | however the table grows, a string already stored keeps its id |
| `Symbols.FirstIndexOfDistinct` | symbol.c:18-26 | in a table without duplicates, the id of an entry is its position |
| `Symbols.SymbolTable.constructor` | symbol.c:6-10 | the zero-filled table: no entries, every slot NULL |
| `Symbols.SymbolTable.Get` | symbol.c:12-16 | only 0 <= id < MAX_SYMBOLS is required; a used slot gives its stored string, a slot beyond the count gives NULL |
| `Symbols.SymbolTable.Find` | symbol.c:18-26 | the first slot with the same length and characters, or -1 exactly when absent; the table is not modified |
| `Symbols.SymbolTable.Add` | symbol.c:28-38 | requires a free slot; stores the string at index count, returns that index, count grows by one and earlier entries are unchanged |
| `Symbols.SymbolTable.Intern` | obj.c:143-148 | find-then-add: the table grows only by an absent name, the id returned holds the name, and a table without duplicates stays without duplicates |
| `Lexer.SymbolEnd` | lex.c:66-73 | the end of the maximal run of characters that do not stop a symbol |
| `Lexer.DigitsEnd` | lex.c:90-96 | the end of the maximal run of digits |
| `Lexer.SymbolStep` | lex.c:55-77 | symbol_rule always advances and stays within the text |
| `Lexer.NumberStepAsWritten` | lex.c:106-110 | number_rule as written may return one past the terminator |
| `Lexer.NumberStep` | lex.c:79-123 | number_rule with the error exit stopped at the terminator always advances and stays within the text |
| `Lexer.TokenStep` | lex.c:128-152 | one pass of token_rule's loop always advances and stays within the text |
| `Lexer.Scan` | lex.c:125-155 | token_rule as a function of the text and position: each pass's tokens, then the rest from the position the pass returns; its properties are `Lexer.ScanOrdered`, `Lexer.BlankScansEmpty` and `Lexer.ParenScan` |
| `Lexer.StepOrdered` | lex.c:128-152 | '(' , ')' and '\'' each give one length-1 token of their kind and advance one; whitespace and '.' advance one with no token; any other symbol start gives exactly one symbol token from p to where the pass stops; a digit gives exactly one number token from p to where the pass stops unless '.' and a non-digit follow the digits, and then none; every token is well formed |
| `Lexer.NumberStepOrdered` | lex.c:79-123 | number_rule gives exactly one token, a maximal digits or digits.digits lexeme from p to where the rule stops (a digits-only token is followed by neither a digit nor '.'), unless '.' and a non-digit follow the digits, and then none |
| `Lexer.ScanOrdered` | lex.c:125-155 | every token pushed is well formed (maximal symbols, maximal numbers that take a following ".digits", exact punctuation), lies in the text, and the tokens come in text order without overlap |
| `Lexer.ScanAsWritten` | lex.c:125-155 | token_rule with number_rule as written, and whether it stepped past the terminator |
| `Lexer.OverreadMeansTrailingRadix` | lex.c:106-110 | the as-written lexer leaves the string only when the text ends in a digit followed by '.' |
| `Lexer.ScanAgrees` | lex.c:125-155 | when the as-written lexer stays in the string it pushes exactly the corrected lexer's tokens |
| `Lexer.TrailingRadixOverreads` | lex.c:51-53 | the input "1." makes token_rule read past the terminator; the corrected lexer gives no token |
| `Lexer.BlankScansEmpty` | lex.c:146-148 | text made only of whitespace gives no tokens |
| `Lexer.ParenScan` | lex.c:131-152 | "(f 'x)" lexes to LPAREN, SYMBOL f, QUOTE, SYMBOL x, RPAREN with their spans |
| `Lexer.FractionScan` | lex.c:98-121 | "1.5" lexes to one number token covering all three characters, and its integer part alone is not a well-formed number token |
| `Lexer.TokenVec.constructor` | lex.c:20-31 | capacity 16 and no tokens |
| `Lexer.TokenVec.Push` | lex.c:39-49 | the token is appended and earlier ones are unchanged; a full vector's capacity is squared; count <= capacity is kept |
| `Lexer.SymbolRule` | lex.c:55-77 | pushes exactly the tokens of SymbolStep and returns its next position (a bad start is skipped without a token) |
| `Lexer.ScanDigits` | lex.c:90-96 | the loop stops at the end of the digit run |
| `Lexer.NumberRule` | lex.c:79-123 | pushes exactly the tokens of NumberStep and returns its next position |
| `Lexer.TokenBody` | lex.c:128-152 | one iteration pushes exactly TokenStep's tokens and returns its next position |
| `Lexer.TokenRule` | lex.c:125-155 | pushes Scan's tokens after those already there and stops at the terminator |
| `Lexer.Lex` | lex.c:159-165 | a fresh vector holding exactly Scan of the whole string |
| `Objects.ExactlyOneType` | obj.c:245-297 | every written value satisfies exactly one type predicate, and is_immediate holds exactly for nil and true |
| `Objects.Car` | obj.c:308-312 | succeeds exactly on pairs and gives the first field; anything else fails the assert |
| `Objects.Cdr` | obj.c:314-318 | succeeds exactly on pairs and gives the second field; anything else fails the assert |
| `Objects.IsEq` | obj.c:382-399 | is_eq: nil with nil, true with true, symbols by id, numbers by payload, other same-type records by handle; its properties are `Objects.IsEqEquivalence` and `Objects.IsEqCases` |
| `Objects.IsEqualWithin` | obj.c:401-410 | is_equal within a depth bound: two pairs when both cars and both cdrs are is_equal, anything else by is_eq; stated by `Objects.IsEqualBoundFree`, `Objects.IsEqualReflexive`, `Objects.IsEqualSymmetric` and `Objects.IsEqImpliesIsEqual` |
| `Objects.IsEqual` | obj.c:401-410 | is_equal on acyclic structures, with the pool's size as the depth bound |
| `Objects.MemberOf` | obj.c:356-364 | member on a finite list; what it answers is `Objects.MemberOfMeaning` |
| `Objects.AssocOf` | obj.c:366-376 | assoc on a finite plist; what it answers is `Objects.AssocOfMeaning` |
| `Objects.IsEqEquivalence` | obj.c:382-399 | is_eq is reflexive, symmetric and transitive |
| `Objects.IsEqCases` | obj.c:382-399 | with an immediate, identity; symbols by interned id; numbers by payload; different types unequal; other same-type records by handle |
| `Objects.IsEqualBoundFree` | obj.c:401-410 | the depth bound of is_equal decides only whether it stops, never its answer |
| `Objects.IsEqualReflexive` | obj.c:401-410 | every finite structure is is_equal to itself |
| `Objects.IsEqualSymmetric` | obj.c:401-410 | is_equal does not depend on argument order |
| `Objects.IsEqImpliesIsEqual` | obj.c:401-410 | is_eq values are is_equal, and on non-pairs is_equal is exactly is_eq |
| `Objects.SameElementsEqual` | obj.c:401-410 | two separately built proper lists whose elements are pairwise is_eq are is_equal |
| `Objects.MemberOfMeaning` | obj.c:356-364 | member gives true exactly when an element is is_eq to x; otherwise nil on a proper list and an assert failure on a dotted tail |
| `Objects.AssocWithin` | obj.c:366-376 | assoc's answer is nil or one of the element pairs |
| `Objects.AssocWithinBoundFree` | obj.c:366-376 | the chain bound decides only whether assoc stops, never its answer |
| `Objects.FirstStop` | obj.c:366-376 | the index of the first element at which assoc's loop stops (a non-pair element, or a pair whose car is is_equal to the key), or the length when none stops |
| `Objects.AssocWithinMeaning` | obj.c:366-376 | at the first stopping element assoc returns it when it is a pair and fails the car assert when it is not; with no stop, nil on a proper plist and an assert failure on a dotted tail |
| `Objects.AssocOfMeaning` | obj.c:366-376 | the same three cases for assoc at the pool's bound |
| `Objects.Lookup` | obj.c:445-461 | defined's answer from an environment: assoc in its plist, the cdr of a found binding, else the parent's answer, else nil; a found value is a record of the pool |
| `Objects.DefWalk` | obj.c:424-433 | def's loop from the start of a plist; `Objects.DefSlot` and `Objects.DefSlotAgreesWithAssoc` state where it ends |
| `Objects.DefSlot` | obj.c:424-433 | def's walk ends on a pair whose key is is_eq to the symbol, or on the last cell, whose cdr is nil |
| `Objects.DefSlotAgreesWithAssoc` | obj.c:424-452 | for a symbol key, def's walk and assoc fail together, and def finds a binding exactly when assoc does, the same pair |
| `Objects.LocalBindingIsDefined` | obj.c:445-454 | a local binding found by assoc is what defined answers |
| `Objects.AssocAfterRebind` | obj.c:435-436 | after the binding's value is replaced, assoc finds the same binding |
| `Objects.AssocAfterAppend` | obj.c:437-438 | after a binding is appended past the last cell, assoc reaches it |
| `Objects.DefStartsBinding` | obj.c:439-440 | def on an empty plist leaves the symbol bound locally to the value |
| `Objects.DefRebindsBinding` | obj.c:435-436 | def on a found binding leaves the symbol bound locally to the new value |
| `Objects.DefAppendsBinding` | obj.c:437-438 | def past the last cell leaves the environment record as it was and the symbol bound locally to the value |
| `Objects.DefThenLookup` | obj.c:416-461 | after a successful def, e keeps its parent, binds the symbol locally to the value, and defined then answers that value |
| `Pool.Heap.PoolInit` | obj.c:29-38 | free count MAX_OBJS, used count 0, free list threading 0..MAX_OBJS-1 in index order, last next and every prev NULL, every record blank with count 0 |
| `Pool.Heap.PoolAllocAsWritten` | obj.c:40-61 | faults exactly when the last free record is taken; otherwise returns the old free head, pushes it on the used list and keeps used + free == MAX_OBJS |
| `Pool.Heap.PoolAlloc` | obj.c:40-61 | returns the old free head, pushes it on the used list, moves the free head to its next, and keeps used + free == MAX_OBJS |
| `Pool.Heap.PoolFree` | obj.c:63-83 | used count down one, free count up one, sum kept; the record is unlinked and pushed on the used list, linking to itself when it was the used head |
| `Pool.Heap.Ref` | obj.c:111-115 | one more count on a record; immediates untouched |
| `Pool.UnrefOf` | obj.c:117-127 | unref over the counts: a count already 0 fails; no count rises and the released record's count falls; a count reaching 0 releases what the record holds, in field order |
| `Pool.ReleaseOf` | obj.c:85-105 | destroy_obj's unrefs, one value after another, failing when one fails; no count rises |
| `Pool.ReleaseShared` | obj.c:85-105 | releasing immediates and distinct records that are still held elsewhere takes exactly one count from each and frees nothing |
| `Pool.UnrefLastCount` | obj.c:117-127 | unref of a record's last count makes it zero and takes one count from each record it holds, freeing exactly that one record when those are held elsewhere |
| `Pool.Heap.Unref` | obj.c:117-127 | immediates untouched; a count of 0 fails the assert; above 1 only that count falls; reaching 0 frees the record; succeeds exactly when `UnrefOf` does, and the new counts are `UnrefOf`'s |
| `Pool.Heap.DestroyObj` | obj.c:85-105 | unrefs a pair's, closure's or environment's fields in field order: succeeds exactly when `ReleaseOf` of those fields does, the new counts are `ReleaseOf`'s, and other records change nothing |
| `Pool.Heap.UnrefEach` | obj.c:88-100 | unrefs each value in turn, stopping at the first failure; succeeds exactly when `ReleaseOf` does and ends in `ReleaseOf`'s counts |
| `Pool.Heap.MakeSymbol` | obj.c:143-155 | interns the name, then a fresh symbol record holding the id at which the table stores the name, count 0 |
| `Pool.Heap.SymbolRecord` | obj.c:150-154 | a fresh symbol record for the id, count 0, taken from the free head |
| `Pool.Heap.MakeNumber` | obj.c:171-178 | a fresh number record with the payload and count 0 |
| `Pool.Heap.MakePair` | obj.c:195-205 | car and cdr are ref'd, then a fresh pair with count 0 |
| `Pool.Heap.MakePrim` | obj.c:207-213 | a fresh primitive record; its count is not written and stays 0 |
| `Pool.Heap.MakeClosure` | obj.c:215-227 | args, body and env are ref'd, then a fresh closure with count 0 |
| `Pool.Heap.MakeEnv` | obj.c:229-239 | plist and parent are ref'd, then a fresh environment with count 0 |
| `Pool.Heap.InitGlobalEnv` | obj.c:534 | g_env becomes a fresh environment with nil plist and parent, and nil then stands for it |
| `Pool.Heap.SetCar` | obj.c:340-346 | a non-pair fails the assert and changes no count; otherwise the new value gains a count, the old car loses one exactly as `UnrefOf` says (cascading), and only the car of that pair changes; storing the current car again changes nothing |
| `Pool.Heap.SetCdr` | obj.c:348-354 | a non-pair fails the assert and changes no count; otherwise the new value gains a count, the old cdr loses one exactly as `UnrefOf` says (cascading), and only the cdr of that pair changes; storing the current cdr again changes nothing |
| `Pool.Heap.Member` | obj.c:356-364 | the loop answers as MemberOf |
| `Pool.Heap.Assoc` | obj.c:366-376 | the loop answers as AssocOf |
| `Pool.Heap.Defined` | obj.c:445-461 | a non-symbol fails the assert; otherwise `Lookup`: nil stands for g_env, assoc in the local plist, then the parent chain, then nil |
| `Pool.Heap.FindSlot` | obj.c:424-433 | def's loop finds the slot DefWalk gives, or the fault car raises |
| `Pool.Heap.ConsBinding` | obj.c:438 | the two conses of a new binding through the corrected allocator, failing exactly when fewer than two records are free (the allocator as written already faults when exactly two are free) |
| `Pool.Heap.StartPlist` | obj.c:439-440 | an empty plist gets (sym . value) without a ref on its first cell; the symbol is then bound locally and the parent kept |
| `Pool.Heap.Rebind` | obj.c:435-436 | set_cdr of the found binding pair: value gains a count and the old value loses one exactly as `UnrefOf` says, failing exactly when that unref fails; only the pair's cdr changes; the symbol is then bound locally to the value |
| `Pool.DefCounts` | obj.c:416-443 | the reference counts after def: a new binding refs sym, value and the binding pair, and a new last cell once more; a found binding refs value and unrefs the old one; none when the walk or that unref fails |
| `Pool.Heap.AppendBinding` | obj.c:437-438 | a new last cell holding (sym . value); through the corrected allocator it fails exactly when fewer than two records are free; the environment record is unchanged and the symbol is bound locally |
| `Pool.Heap.Def` | obj.c:416-443 | returns value; a non-symbol fails the assert and changes nothing; nil stands for g_env; the records change as `DefWrote` says and the counts as `DefCounts` says; a faulting walk or a faulting unref fails; the symbol is bound locally and the parent untouched |
| `Pool.Heap.DefInPlist` | obj.c:424-438 | def on a non-empty plist: the records as `DefWrote` says, the counts as `DefCounts` says, failing on a faulting walk, and the symbol bound locally when the binding is not a plist cell |
| `Kernel.TypeTestOf` | prim.c:58-67 | a type predicate answers #t or #f |
| `Kernel.TypeTestMeaning` | prim.c:58-78 | #t exactly when every element of the operand chain passes the test; no operands give #t |
| `Kernel.FindKey` | obj.c:366-376 | the first binding whose key is a symbol with that name, or -1 exactly when there is none |
| `Kernel.Lookup` | obj.c:445-461 | env_lookup: the first local binding of the name, else the parent's answer, else #null; the answer is a value of the heap; `Kernel.LookupKept`, `Kernel.LookupDefined` and `Kernel.LookupDefinedOther` relate it to env_define |
| `Kernel.EnvDefine` | obj.c:416-443 | env_define rewrites only that environment's bindings: the first binding of the name takes the value, or one is appended; the parent and every other record stay as they were, and the heap stays closed |
| `Kernel.MatchOf` | prim.c:116-126 | match gives #inert and changes only the target environment |
| `Kernel.LookupKept` | obj.c:445-461 | lookup depends only on the environments, so allocation and pair updates keep it |
| `Kernel.LookupDefined` | obj.c:416-443 | after env_define the name looks up its new value in that environment |
| `Kernel.LookupDefinedOther` | obj.c:416-461 | env_define changes no other name's lookup, from any environment |
| `Kernel.EqOf` | prim.c:85-88 | $eq answers #t or #f, or faults on missing operands, and leaves the heap unchanged |
| `Kernel.IsEq` | obj.c:382-399 | is_eq over the evaluator's heap: immediates by identity, symbols by name, numbers by payload, other records by address |
| `Kernel.EqualWithin` | obj.c:401-410 | is_equal over the evaluator's heap within fuel: pairs field by field, both fields always compared, anything else by is_eq; None when the fuel runs out |
| `Kernel.EqualOf` | prim.c:90-93 | $equal answers #t or #f and leaves the heap unchanged |
| `Kernel.EvalOf` | prim.c:128-171 | evaluation keeps the heap closed and never shrinks it: records are appended or rewritten in place (pair fields, environment bindings), and none disappears or changes kind |
| `Kernel.CombineOf` | prim.c:134-168 | combination of an evaluated head with the operands keeps the heap closed and never shrinks it, and a value it gives is in the heap; `Kernel.EvalCombination` states each case |
| `Kernel.ApplyPrimOf` | prim.c:139 | a primitive operative's code applied to the raw operands and env keeps the heap closed and never shrinks it, and a value it gives is in the heap |
| `Kernel.OperateOf` | prim.c:140-152 | entering a compound operative keeps the heap closed and never shrinks it; `Kernel.OperateBindsFormals` and `Kernel.OperateBindsEformal` state its bindings |
| `Kernel.MapcarOf` | prim.c:97-114 | mapcar_eval from a partly built list keeps the heap closed and never shrinks it; `Kernel.MapcarLiterals` states the list it builds |
| `Kernel.EvalPrimOf` | prim.c:181-189 | $eval keeps the heap closed and never shrinks it, and a value it gives is in the heap |
| `Kernel.IfOf` | prim.c:191-209 | $if keeps the heap closed and never shrinks it; `Kernel.IfChoosesBranch` states which branch it evaluates |
| `Kernel.ConsOf` | prim.c:211-214 | $cons keeps the heap closed and never shrinks it, and the pair it gives is in the heap; `Kernel.QuoteAndCons` states the pair |
| `Kernel.SetCarOf` | prim.c:216-220 | $set_car keeps the heap closed and never shrinks it, and gives #inert when it succeeds; `Kernel.SetFields` states the field it rewrites |
| `Kernel.SetCdrOf` | prim.c:222-226 | $set_cdr keeps the heap closed and never shrinks it, and gives #inert when it succeeds; `Kernel.SetFields` states the field it rewrites |
| `Kernel.MakeEnvironmentOf` | prim.c:228-239 | $make_environment keeps the heap closed and never shrinks it, and the environment it gives is in the heap; `Kernel.MakeEnvironmentParent` states its parent |
| `Kernel.VauOf` | prim.c:241-244 | $vau keeps the heap closed and never shrinks it, and the operative it gives is in the heap; `Kernel.VauCloses` states its fields |
| `Kernel.DefineOf` | prim.c:173-179 | $define! gives #inert |
| `Kernel.EvalAtom` | prim.c:128-171 | a symbol evaluates to its lookup, any other non-pair to itself, and the heap is untouched |
| `Kernel.EvalCombination` | prim.c:134-168 | after the head, case by case: a primitive operative gets the raw operands and env, a compound one is entered, an applicative whose operands fail gives that outcome and otherwise combines its operative with the evaluated operands, anything else faults |
| `Kernel.OperateBindsFormals` | prim.c:140-152 | a fresh environment under the static one is the next record, binds a symbol formal to the unevaluated operand list, and the body is evaluated there |
| `Kernel.OperateBindsEformal` | prim.c:149-150 | a symbol eformal is bound to that symbol's value in the calling environment, not to the environment |
| `Kernel.DefineBindsSymbol` | prim.c:173-179 | a symbol definiend is bound in the calling environment to the second operand's value; other names keep their lookups |
| `Kernel.IfChoosesBranch` | prim.c:191-209 | a non-boolean test faults, so does a missing branch operand; #t evaluates only the second operand and #f only the third |
| `Kernel.QuoteAndCons` | prim.c:80-83 | $quote gives its first operand and changes nothing; $cons (prim.c:211-214) gives a fresh pair of the first two |
| `Kernel.SetFields` | prim.c:216-226 | set-car!/set-cdr! rewrite one field of a pair and give #inert; a non-pair first operand faults |
| `Kernel.VauCloses` | prim.c:241-244 | a fresh compound operative over operands 1-3, closed over the calling environment |
| `Kernel.MakeEnvironmentParent` | prim.c:228-239 | a fresh empty environment whose parent is #null with no operands, else the first operand; lookups then answer as the parent does |
| `Kernel.ListCellsList` | prim.c:97-114 | the fresh cells form a proper list of the given elements |
| `Kernel.MapcarLiterals` | prim.c:97-114 | over operands that evaluate to themselves, mapcar_eval builds a fresh proper list of them in order (an improper tail dropped) and leaves the older records as they were |
| `Kernel.PrimInfosShape` | prim.c:13-38 | 21 entries with a primitive, the sentinel last, all names distinct |
| `Kernel.RegisteredKept` | prim.c:40-56 | a registration survives anything that keeps the name's lookup |
| `Kernel.RowDefined` | prim.c:45-53 | the $define! of one row registers it and changes no other name |
| `Kernel.Interp.constructor` | obj.c:534 | a heap holding only the global environment, empty and without parent |
| `Kernel.Interp.TypeTest` | prim.c:58-67 | the loop answers as TypeTestOf |
| `Kernel.Interp.Match` | prim.c:116-126 | ends in MatchOf's outcome and heap |
| `Kernel.Interp.Eval` | prim.c:128-171 | ends in EvalOf's outcome and heap |
| `Kernel.Interp.Combine` | prim.c:134-168 | ends in CombineOf's outcome and heap |
| `Kernel.Interp.ApplyPrim` | prim.c:139 | each primitive ends in its specification's outcome and heap |
| `Kernel.Interp.Operate` | prim.c:140-152 | ends in OperateOf's outcome and heap |
| `Kernel.Interp.MapcarEval` | prim.c:97-114 | the in-place loop, linking each fresh cell before evaluating into it, ends in MapcarOf's outcome and heap |
| `Kernel.Interp.MapcarStep` | prim.c:101-111 | one loop turn keeps the loop's goal and uses fuel |
| `Kernel.Interp.EvalPrim` | prim.c:181-189 | ends in EvalPrimOf's outcome and heap: the second operand is the environment when present |
| `Kernel.Interp.Define` | prim.c:173-179 | ends in DefineOf's outcome and heap |
| `Kernel.Interp.If` | prim.c:191-209 | ends in IfOf's outcome and heap |
| `Kernel.Interp.RegisterRow` | prim.c:45-53 | the row's name is bound in g_env to its primitive, wrapped when the row says so, and no other name changes |
| `Kernel.Interp.PrimInit` | prim.c:40-56 | walks the table to its sentinel; afterwards every row is registered in g_env |

## Left out

- The constructors `Pool.Heap.MakeSymbol`, `Pool.Heap.SymbolRecord`, `Pool.Heap.MakeNumber`, `Pool.Heap.MakePair`, `Pool.Heap.MakePrim`, `Pool.Heap.MakeClosure`, `Pool.Heap.MakeEnv` and `Pool.Heap.InitGlobalEnv`, and `def`'s allocating steps `Pool.Heap.ConsBinding`, `Pool.Heap.StartPlist`, `Pool.Heap.AppendBinding` and `Pool.Heap.Def`, allocate through the corrected `Pool.Heap.PoolAlloc`. The fault obj.c:46 raises when the last free record is taken is modelled only in `Pool.Heap.PoolAllocAsWritten`. With the allocator as written, `def` already faults when exactly two records are free.
- The constructors, `Pool.Heap.PoolAlloc` and `Pool.Heap.PoolAllocAsWritten` require a non-empty free list. They do not model the `assert(g_free_objs)` failure of obj.c:43 on an empty pool. `def`'s conses do model running out, through `Pool.Heap.ConsBinding`.
- `Pool.Heap.Def` and `Pool.Heap.Defined`: require the environment argument to be nil once g_env exists, or an environment record.
  - The `assert(env)` failure of obj.c:421 and obj.c:450 when g_env is still NULL is not modelled.
  - A record of another type is excluded too. C checks nothing and reads its `data.env` fields (obj.c:424, 452), which is undefined behaviour.
- `Pool.Heap.Def`: states the records and the reference counts def leaves behind, not the used and free counters or the used-list links.
- `Objects.MemberOf`, `Objects.AssocOf`, `Objects.IsEqual`, `Objects.DefWalk`, `Objects.Lookup`, `Pool.Heap.Member`, `Pool.Heap.Assoc`, `Pool.Heap.FindSlot`, `Pool.Heap.Defined` and `Pool.Heap.Def`: require finite lists, acyclic keys and a finite environment chain. `set_car`/`set_cdr` can build a cyclic list. On one, C's loops in member, assoc and def never end and is_equal recurses without bound; these runs are not modelled.
- The lexer and the symbol table index Unicode characters where lex.c and symbol.c index bytes. Token spans and symbol_find's length test count characters, so they agree with C only on single-byte text.
- `Kernel.MapcarLiterals`: proves mapcar_eval's list shape only for operands that evaluate to themselves. For general operands, `Kernel.Interp.MapcarEval` is proved equal to `MapcarOf`, which performs the same in-place steps. The operands' evaluation may change the heap, so no closed list statement is proved for that case.
- `Pool.Heap.PoolFree`: proves the counters and the exact new links, not list membership. After the relinking onto the used list that obj.c:77-79 performs, the used list is no longer a well-formed list.
- `Pool.Heap.Rebind`: proves the new local binding only when the binding pair is not itself a cell of the plist. A plist whose element is one of its own cells is not covered.
- The `ref`/`unref` calls in prim.c (lines 156, 163, 194-207, 235-237) are not modelled. The evaluator's abstract heap has no reference counts and never frees.
- The object layer prim.c is written against (`make_environment`, `env_define`, `env_lookup`, `make_applicative`, `make_compound_operative`, `make_prim_operative`, `KINERT` and the other immediates) is not part of this repository. It is modelled abstractly, as described above.
- Termination of `eval` is not modelled. Every evaluation takes fuel, and `NoFuel` stands for a run that did not finish.
- The stderr messages before `assert(0)` are not modelled. Those paths are the outcome `Fault`.
- The commented-out code at prim.c:246-391 is dead code and is not modelled.
- These obj.c functions do I/O or parse floating point and are not modelled: `dump`, `init` (its bootstrap file read and printing; the line that creates g_env is `Pool.Heap.InitGlobalEnv`), parse.c's `read_file`, and `make_number2` (malloc and `atof`).
- `make_symbol2` is not modelled separately. It interns a span exactly as `make_symbol` does, and its allocation is `Pool.Heap.SymbolRecord`.
- `cadr`, `list1`-`list3` and `quote` are compositions of `cons`/`car`/`cdr` and are not given members of their own.
- `make_nil` and `make_true` are the constants `Objects.Nil` and `Objects.True`.
- `token_init` is the `Token` datatype's constructor.
- Numbers are an opaque `real` payload compared by equality. The model has no floating-point arithmetic, NaN or rounding.
- malloc/realloc failure, pointer tagging and C integer overflow are not modelled.
  - `token_vec_push` squares the capacity with unbounded integers; in C, squaring a large capacity can overflow `int`.
  - Symbols carry their ids, and handles are indices.
- Concurrency does not arise. The interpreter is single-threaded.
- symbol_find compares with `strncmp` over `len` characters after checking the lengths are equal. For stored strings, which contain no NUL byte, this is string equality, and the model uses equality.

## Findings

| source | as written | input that shows it | evidently intended | confidence | as-written member | corrected member |
|---|---|---|---|---|---|---|
| obj.c:46 | `pool_alloc` writes `g_free_objs->prev = NULL` after advancing the free head, without checking that a new head exists | allocating when exactly one record is free (the 10000th allocation after `pool_init`) writes through NULL | clear the new head's `prev` only when there is a new head | high, not executed | `Pool.Heap.PoolAllocAsWritten` | `Pool.Heap.PoolAlloc` |
| lex.c:106-110 | after digits and `.` with no digit next, `PARSE_ERROR` returns `p+1`, one past the character after the radix point | the text `1.`: token_rule resumes one past the terminator and reads beyond the string (`Lexer.TrailingRadixOverreads`) | resume no further than the terminator | high, not executed | `Lexer.ScanAsWritten` | `Lexer.Scan` |
