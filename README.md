# Faster.Ioc core in Dafny

A model of the core of Faster.Ioc, a small dependency-injection container for .NET.
The model covers four groups, with proofs about each.

- **The hand-written hash tables.**
  - `MultiMap` and `DelegateCache` are Robin Hood tables that map a key to many values (module `MultiMaps`). `DelegateCache` is the same class with the exception at PSL 127 switched on.
  - `HashMap` is the Robin Hood table of compiled delegates, one per key (module `HashMaps`).
  - `RegistrationFactory` and the delegate table inside `ExpressionFactory` are grouped tables (module `GroupedTables`). They probe 16-slot windows with triangular jumps from a Fibonacci hash (modules `TriangularProbes` and `BitMasks`).
  - Each is a class over arrays that its methods write in place. The loops carry invariants, and each method is proved against a specification of the stored multiset of entries.
  - Shared helpers: `NextPow2` and `Log2` (module `Bits`), and the per-slot `MetaByte` (module `MetaBytes`).
- **The cycle guards.** `CircularReference` and `CircularReferenceService` are stack classes (module `CircularReferences`).
- **The plan compilers.**
  - `ExpressionGenerator` (module `ExpressionGenerators`), `ExpressionFactory` (module `ExpressionFactories`) and the older `DependencyResolver` (module `DependencyResolvers`).
  - They work over an abstract universe of types (module `Types`) and a store of registrations (modules `Registrations` and `Registries`).
  - What they compute alike is written once, in module `Compilers`: the registration a type resolves to, the post-order walk over constructor parameters under the cycle guard, and the plan of a constructor call or an override.
  - The lifetime transform and the disposal wrappers are in module `Lifecycles`.
  - Expression trees become the `Plan` datatype of module `Plans`. `Eval` says what invoking a compiled delegate does to a scope and to the supply of object identities.
- **Scopes and the facade.**
  - `Scoped` with its get-or-create slots and its disposal list, and the static counters held in one `Runtime` object (module `Scopes`).
  - `Container`: the `Register` overloads, `RegisterServiceCollection`, `Resolve` by type and by key, `CreateScope` and `Dispose` (module `Containers`).
  - `RegistrationEqualityComparer` and the `ServiceLifetime` conversion (modules `Registrations` and `Lifetimes`).

Each exception the modelled code can raise is an explicit `Err` outcome of type `Wrappers.Fault`, so nothing escapes the model unstated. This includes array indexing past the end wherever the source can reach it.

## Model

| member | source | states |
|---|---|---|
| Lifetimes.Convert | src/Extensions/ServiceLifetimeExtensions.cs:17-31 | Scoped maps to Scoped and Singleton to Singleton; every other value, Transient and out-of-range casts included, maps to Transient; each case is stated as an if-and-only-if |
| Lifetimes.ConvertBijective | src/Extensions/ServiceLifetimeExtensions.cs:17-31 | on the three named ServiceLifetime members the mapping is one to one and reaches every Lifetime |
| Registrations.GetHashCode | src/Comparer/RegistrationEqualityComparer.cs:21-24 | always raises NotImplementedException |
| Registrations.SameIsEquivalence | src/Comparer/RegistrationEqualityComparer.cs:11-19 | the comparer's Equals is reflexive, symmetric and transitive |
| Registrations.SameIgnoresTheRest | src/Comparer/RegistrationEqualityComparer.cs:11-19 | Equals holds exactly when the registered types and the return types agree; identity, lifetime, key hash and override play no part |
| CircularReferences.Push | src/CircularReference.cs:11-20 | the stack after Add is the old stack with the type pushed, whether or not it raises; Add succeeds if and only if the type was not already on the stack; a repeat raises InvalidOperationException whose message is built from the stack after the push |
| CircularReferences.Pop | src/CircularReference.cs:22-25 | Exit removes the most recent entry; on an empty stack it raises and the stack stays empty |
| CircularReferences.PushPop | src/CircularReference.cs:11-25 | a successful Add followed by Exit restores the stack; an Add on an empty stack never raises |
| CircularReferences.CycleMessageStartsWithRepeat | src/CircularReference.cs:15-16 | the cycle message names the repeated type first, then the rest of the stack from the most recent entry down |
| CircularReferences.CircularReference.Add | src/CircularReference.cs:11-20 | the new stack and the outcome are those of Push on the old stack |
| CircularReferences.CircularReference.Exit | src/CircularReference.cs:22-25 | the new stack and the outcome are those of Pop on the old stack |
| CircularReferences.CircularReferenceService.Add | src/CircularReferenceService.cs:11-21 | Push of the registration's RegisteredType on the old stack; nothing else of the registration is tracked |
| CircularReferences.CircularReferenceService.Exit | src/CircularReferenceService.cs:23-26 | the new stack and the outcome are those of Pop on the old stack |
| Types.MakeGeneric | src/ExpressionGenerator.cs:237-240 | MakeGenericType succeeds exactly on an open definition, and then closes it over the arguments into a generic type that is not a definition |
| Types.MakeGenericDefinition | src/ExpressionGenerator.cs:232-240 | closing an open definition and taking GetGenericTypeDefinition of the result gives the definition back |
| Types.SequenceIsClosed | src/ExpressionGenerator.cs:222-223 | an IEnumerable<T> or IList<T> parameter type is a closed generic type whose element is one of its generic arguments |
| Bits.NextPow2 | src/Collections/MultiMap.cs:362-372 | the closed form of the 32-bit bit-smearing computation, 2^BitLength(c - 1) wrapped to 32 bits, stays below 2^32 |
| Bits.NextPow2Least | src/Collections/MultiMap.cs:362-372 | for 1 <= c <= 2^31 the result is a power of two 2^k with k <= 31 and c <= result < 2c, so it is the least power of two at least c |
| Bits.NextPow2Wraps | src/Collections/MultiMap.cs:362-372 | for c = 0 and for c above 2^31 the unsigned arithmetic wraps and the result is 0 |
| Bits.Log2 | src/Collections/MultiMap.cs:379-389 | the shifting loop returns the bit length of its argument |
| Bits.BitLengthBounds | src/Collections/MultiMap.cs:379-389 | the bit length is 0 exactly for 0, and otherwise brackets v between 2^(len-1) and 2^len |
| Bits.BitLengthOfPow2 | src/Collections/MultiMap.cs:118-121 | Log2 of a power-of-two size 2^k is k + 1, which is the maximum PSL the constructors derive |
| Bits.BitLengthAtMost | src/Collections/MultiMap.cs:379-389 | a value below 2^k has a bit length of at most k |
| MetaBytes.MetaByte.Psl | src/Collections/MultiMap.cs:529-531 | the PSL getter reads the low seven bits, so it is below 128 |
| MetaBytes.SetTopBit | src/Collections/MultiMap.cs:552-556 | setting bit 7 makes the byte at least 128 and keeps its low seven bits |
| MetaBytes.DefaultIsEmpty | src/Collections/MultiMap.cs:519-568 | a zero-initialised MetaByte is empty and has PSL 0 |
| MetaBytes.SetPslReadsBack | src/Collections/MultiMap.cs:529-536 | after the PSL is assigned the slot is occupied, the PSL reads back as the low seven bits of the value assigned, and the hashcode is untouched |
| MetaBytes.SetPslSmall | src/Collections/MultiMap.cs:529-536 | a PSL of at most 127 reads back unchanged |
| MetaBytes.IncPslStep | src/Collections/MultiMap.cs:164 | `++Psl` leaves the slot occupied and the hashcode unchanged, and adds one to the PSL, wrapping 127 to 0 |
| MetaBytes.IncPslWraps | src/Collections/MultiMap.cs:227 | incrementing a PSL of 127 gives 0: the seventh bit is lost |
| BitMasks.TrailingZeroCount | src/Factory/RegistrationFactory.cs:168-185 | the count is 32 exactly for the zero mask; otherwise the bit at that position is set and every lower bit is clear |
| BitMasks.ResetClearsLowest | src/Factory/RegistrationFactory.cs:407-411 | ResetLowestSetBit clears the lowest set bit and keeps every other bit |
| BitMasks.ResetRaisesLowest | src/Factory/RegistrationFactory.cs:166-179 | clearing the lowest set bit moves the lowest set bit strictly up, so the mask loops terminate |
| BitMasks.LowestIsFirst | src/Factory/RegistrationFactory.cs:166-179 | every set bit lies at or above the trailing-zero count, so the mask loops visit slots lowest offset first |
| BitMasks.WithBitSets | src/Factory/RegistrationFactory.cs:164 | adding bit p to a mask sets bit p and keeps every other bit, which is how a 16-lane comparison mask is built |
| TriangularProbes.ProbeStart | src/Factory/RegistrationFactory.cs:155 | the first probe window starts at the start slot itself |
| TriangularProbes.ProbeStep | src/Factory/RegistrationFactory.cs:207-209 | one step (jumpDistance += 16; index += jumpDistance; index & (length - 1)) moves from the window of group j of the triangular sequence to the window of group j + 1 |
| TriangularProbes.GroupsDistinct | src/Factory/RegistrationFactory.cs:202-209 | for a group count n = 2^k, two different steps below n reach different groups |
| TriangularProbes.GroupsCovered | src/Factory/RegistrationFactory.cs:202-209 | within n = 2^k steps the probe reaches every group, as the source's comment claims |
| GroupedTables.H2 | src/Factory/RegistrationFactory.cs:418-419 | the fragment lies in 0..127, so a stored fragment is never negative, unlike the empty (-127) and tombstone (-126) markers |
| GroupedTables.HashCode | src/Factory/RegistrationFactory.cs:149 | the unsigned reading of the 32-bit hash lies below 2^32 |
| GroupedTables.StartOf | src/Factory/RegistrationFactory.cs:155 | the Fibonacci-hashed start index `hashcode * 0x9E3779B9 >> shift` lies below the length |
| GroupedTables.WindowAt | src/Factory/RegistrationFactory.cs:202-209 | every window a probe scans starts below the length, at the start's offset within a group |
| GroupedTables.IsPow2Exactly | src/Factory/RegistrationFactory.cs:104 | BitOperations.IsPow2 holds exactly of the powers of two |
| GroupedTables.NormalLengthShape | src/Factory/RegistrationFactory.cs:100-111 | the normalised length is a power of two 2^k, 4 <= k <= 30, at least 16 and at least the requested length, and below twice a requested length of 16 or more |
| GroupedTables.ConstructedShape | src/Factory/RegistrationFactory.cs:100-116 | the constructor's length is a whole number of 16-slot groups, 2^gl of them, and its shift is 32 - Log2(length) |
| GroupedTables.GroupsDouble | src/Factory/RegistrationFactory.cs:336-340 | Resize doubles the length and takes one from the shift |
| GroupedTables.CappedLoad | src/Factory/RegistrationFactory.cs:93-98 | the load factor is capped at 0.9 |
| GroupedTables.FloorThresholdTruncates | src/Factory/RegistrationFactory.cs:113 | the constructor's threshold is length * loadFactor truncated to an integer |
| GroupedTables.CeilThresholdExact | src/Factory/RegistrationFactory.cs:341 | after a resize the threshold is not truncated: comparing Count with it is comparing Count with length * loadFactor |
| GroupedTables.ThresholdBelow | src/Factory/RegistrationFactory.cs:95-113 | with a load factor of at most 0.9 and at least 16 slots, both thresholds are below the length, so a table always keeps a free slot |
| GroupedTables.LengthAtMost | src/Factory/RegistrationFactory.cs:339-346 | a table holds at most 2^30 slots; only at that length does doubling make the array size negative |
| GroupedTables.FreshLayout | src/Factory/RegistrationFactory.cs:118-122 | arrays whose every slot reads -127 satisfy the layout invariant and store nothing |
| GroupedTables.NotAllFilled | src/Factory/RegistrationFactory.cs:202-209 | with fewer entries than slots, some window of every probe has a free slot, so each probe loop ends |
| GroupedTables.LowestSlot | src/Factory/RegistrationFactory.cs:164-169 | the slot of a nonzero group mask's lowest bit is the first slot of the group that passes the comparison |
| GroupedTables.FragmentsSuffice | src/Factory/RegistrationFactory.cs:164-179 | a slot whose fragment differs from the key's holds no entry of the key, so scanning the fragment matches sees every candidate |
| GroupedTables.NoneWanted | src/Factory/RegistrationFactory.cs:256-260 | a probe that found nothing in windows 0..j and met a free slot in window j proves that no stored entry matches |
| GroupedTables.EntryValuesStored | src/Factory/RegistrationFactory.cs:41-51 | Values lists one value per stored entry, and exactly the stored values |
| GroupedTables.CollectedAll | src/Factory/RegistrationFactory.cs:273-324 | slots collected once each, covering every slot of the key, yield exactly the key's values, none twice |
| GroupedTables.GatherEnds | src/Factory/RegistrationFactory.cs:309-313 | when a window with an empty slot ends GetAll's probe, the values gathered are those of every stored entry of the key, each once |
| GroupedTables.GroupedTable.constructor | src/Factory/RegistrationFactory.cs:84-125 | the capped load factor, the normalised length with shift 32 - Log2(length), the truncated threshold, Count 0, and length + 16 metadata bytes that all read -127 |
| GroupedTables.GroupedTable.MatchInGroup | src/Factory/RegistrationFactory.cs:164-179 | the first slot of the group, lowest position first, whose fragment matches and whose entry passes the test; None when no such slot exists |
| GroupedTables.GroupedTable.NextWindow | src/Factory/RegistrationFactory.cs:207-209 | the jump moves the probe from window j to window j + 1 |
| GroupedTables.GroupedTable.Search | src/Factory/RegistrationFactory.cs:159-210 | a duplicate is found if and only if an entry with an equal key and a comparer-equal registration is stored; otherwise the slot returned is the first free slot of the first window of the probe that has one |
| GroupedTables.GroupedTable.SearchWindow | src/Factory/RegistrationFactory.cs:164-209 | one window of the probe: when it ends the search, a duplicate is reported exactly when one is stored, and otherwise the free slot returned is the first of the probe; when it does not, no duplicate sits in the windows passed |
| GroupedTables.GroupedTable.FreeSlot | src/Factory/RegistrationFactory.cs:370-388 | Resize's probe returns the first free slot of the first window of the key's probe that has one |
| GroupedTables.GroupedTable.FreeWindow | src/Factory/RegistrationFactory.cs:370-387 | one window of Resize's probe: its first free slot when it has one, else the move to the next window |
| GroupedTables.GroupedTable.Place | src/Factory/RegistrationFactory.cs:189-198 | the fragment and the entry are written at the slot, nothing else changes, and the stored multiset gains the entry |
| GroupedTables.GroupedTable.Insert | src/Factory/RegistrationFactory.cs:159-210 | stores if and only if no duplicate is stored; a store adds exactly the entry and one to Count; a refusal changes neither |
| GroupedTables.GroupedTable.Reinsert | src/Factory/RegistrationFactory.cs:353-389 | after the loop the new arrays store exactly the entries of the old slots with non-negative metadata |
| GroupedTables.GroupedTable.Move | src/Factory/RegistrationFactory.cs:365-388 | an old slot's entry enters the new arrays at a free slot of its probe, and the stored multiset gains exactly it |
| GroupedTables.GroupedTable.MoveSlot | src/Factory/RegistrationFactory.cs:359-389 | after slot i of the old arrays the new arrays store exactly the entries of the old slots up to i |
| GroupedTables.GroupedTable.Grow | src/Factory/RegistrationFactory.cs:336-351 | one less shift, twice the length, the untruncated threshold, Count kept, and fresh arrays with every slot empty |
| GroupedTables.GroupedTable.Resize | src/Factory/RegistrationFactory.cs:334-390 | twice the length, one less shift, every entry kept and Count unchanged; at the largest length it returns Overflow and changes nothing |
| GroupedTables.GroupedTable.Emplace | src/Factory/RegistrationFactory.cs:139-211 | resizes first once Count reaches the threshold; then returns true and adds the entry and one to Count if and only if no duplicate is stored, and otherwise returns false and stores nothing |
| GroupedTables.GroupedTable.CollectInGroup | src/Factory/RegistrationFactory.cs:293-307 | the values of the group's slots whose fragment matches and whose key is the key, lowest position first |
| GroupedTables.GroupedTable.CollectNext | src/Factory/RegistrationFactory.cs:296-306 | the lowest matching bit is consumed, its slot's value appended when the key matches, and the next slot visited lies strictly further on in the group |
| GroupedTables.GroupedTable.Get | src/Factory/RegistrationFactory.cs:219-271 | None if and only if no entry of the key is stored; otherwise the value of the first entry of the key along its probe |
| GroupedTables.GroupedTable.GetWindow | src/Factory/RegistrationFactory.cs:228-269 | one window of Get's probe: when the probe ends, None exactly when no entry of the key is stored, otherwise the first entry of the key; when it goes on, no entry of the key sits in the windows passed |
| GroupedTables.GroupedTable.GetAll | src/Factory/RegistrationFactory.cs:273-324 | a value is yielded if and only if an entry of the key holding it is stored, and none is yielded twice; entries under other keys play no part |
| GroupedTables.GroupedTable.GatherWindow | src/Factory/RegistrationFactory.cs:285-322 | one window of GetAll's probe: its entries of the key are appended, and the probe ends exactly when the window has an empty slot |
| GroupedTables.GroupedTable.Values | src/Factory/RegistrationFactory.cs:41-51 | the values of the slots with non-negative metadata in slot order: one per stored entry, and exactly the stored values |
| ExpressionFactories.KeysOnlyDuplicate | src/Factory/ExpressionFactory.cs:214-223 | with keys-only comparison, an entry is a duplicate exactly when its key is present |
| ExpressionFactories.GetAll | src/Factory/ExpressionFactory.cs:261-264 | GetAll yields nothing |
| ExpressionFactories.ExpressionFactory.constructor | src/Factory/ExpressionFactory.cs:57-80 | an empty keyed table of length 16 whose threshold is 8 |
| ExpressionFactories.ExpressionFactory.Cache | src/Factory/ExpressionFactory.cs:188-259 | the key is cached afterwards; the delegate is added only when the key was absent, and nothing else changes |
| ExpressionFactories.ExpressionFactory.Compile | src/Factory/ExpressionFactory.cs:363-395 | the registration gets its expression, kept if it had one; the delegate returned is the registration's compiled delegate and it is cached under the registered type unless the type was cached already |
| ExpressionFactories.ExpressionFactory.CreateFor | src/Factory/ExpressionFactory.cs:166-176 | a root whose dependency walk raises makes the call raise; on success the store and expressions are those the walk and its compilations leave, every yielded registration then the root is compiled and cached, the delegate returned is the root's compiled delegate (its expression, wrapped by the lifetime's cleanup when it is newly compiled), and the cache only grows |
| ExpressionFactories.ExpressionFactory.CompileRoot | src/Factory/ExpressionFactory.cs:176 | a walk that raised passes its fault on; otherwise the store is the one the walk left, every yielded registration stays compiled, the root gets an expression and a cached delegate, and the delegate returned is the root's: its expression when the root had one already or was yielded, and otherwise that expression wrapped by the lifetime's cleanup |
| Compilers.RootDelegateOf | src/ExpressionGenerator.cs:75-101 | the delegate Compile gives the root after the yields are compiled is RootDelegate: the root's expression when it had one or was yielded, otherwise that expression with the lifetime's cleanup |
| ExpressionFactories.ExpressionFactory.CompileYield | src/Factory/ExpressionFactory.cs:172 | one more yielded registration is compiled and cached, and those before it stay so |
| ExpressionFactories.ExpressionFactory.Create | src/Factory/ExpressionFactory.cs:158-177 | an unresolvable root type raises what GetRegistration raises, and a root whose dependency walk raises makes the call raise; on success every registration the walk yields, then the root, is compiled and cached, each with the store as it was when yielded, and the delegate returned is the root's compiled delegate |
| ExpressionFactories.ExpressionFactory.CompileYields | src/Factory/ExpressionFactory.cs:169-173 | on success every yielded registration is compiled and cached, in yield order |
| ExpressionFactories.ExpressionFactory.Get | src/Factory/ExpressionFactory.cs:93-147 | a hit returns the cached delegate and changes nothing; a miss raises GetRegistration's or the walk's fault, or returns the root's compiled delegate with every registration walked compiled and cached, as Create states |
| Registries.GetAll | src/Collections/MultiMap.cs:282-296 | the registrations yielded are exactly those stored under the key |
| Registries.Get | src/Collections/MultiMap.cs:259-275 | a registration is returned if and only if one is stored under the key, and it is one of them |
| Registries.Values | src/Factory/RegistrationFactory.cs:41-51 | one registration per stored pair, in store order |
| Registries.EmplaceIn | src/Collections/MultiMap.cs:141-154 | Emplace stores if and only if the registration is not a duplicate under the store's policy; a refusal leaves the store unchanged, a store appends the pair |
| Registries.GetIsFirstOfAll | src/Collections/MultiMap.cs:259-321 | Get returns the first registration GetAll yields, and ContainsKey holds exactly when Get finds one |
| Registries.GetAllAfterEmplace | src/Factory/RegistrationFactory.cs:273-324 | emplacing under one key appends the stored registration to GetAll of that key and leaves GetAll of every other key unchanged |
| Registries.FreshIsStored | src/Collections/MultiMap.cs:332-349 | a registration object created after every stored one is never a reference duplicate, so the MultiMap stores it |
| Registries.ComparerRefusesSameTypes | src/Factory/RegistrationFactory.cs:166-179 | the comparer-based store refuses a registration with the same two types under the same key, whatever its lifetime, key hash or override, and stays unchanged |
| Registries.Registry.Emplace | src/Collections/MultiMap.cs:141-154 | the new store and the flag returned are those of EmplaceIn on the old store |
| Registries.Registry.NewRegistration | src/Container.cs:97-110 | a registration with a fresh identity and exactly the fields given |
| Plans.EvalMonotone | src/Scoped.cs:147-158 | invoking a delegate only takes fresh object identities, an object it builds has an identity it took, and it keeps whether its scope has a disposal list |
| Plans.TransientIsDistinct | src/ExpressionGenerator.cs:383-415 | a Transient constructor plan invoked twice, one call after the other, returns two different objects |
| Plans.SingletonIsShared | src/ExpressionGenerator.cs:383-415 | a Singleton constant plan returns its object every time and changes nothing |
| Plans.ScopedIsSharedInScope | src/Scoped.cs:147-158 | once a scoped slot plan has produced a non-null object in a scope, invoking it again in that scope returns the same object and changes nothing |
| Plans.ScopedDiffersAcrossScopes | src/Scoped.cs:147-158 | in two fresh scopes a scoped constructor plan builds two different objects |
| Plans.TransientWrapperAppends | src/ExpressionGenerator.cs:284-300 | the transient disposal wrapper appends the object to the disposal list of the scope it runs in, on every invocation |
| Plans.ScopedWrapperAddsOnce | src/ExpressionGenerator.cs:309-331 | the scoped disposal wrapper appends the object only when the list does not already hold it, so afterwards the object is listed |
| Plans.UnscopedKeepsScope | src/ExpressionGenerator.cs:383-415 | a plan that does not mention the scope parameter leaves the scope as it was |
| Scopes.NonNull | src/Scoped.cs:183-187 | the objects Dispose releases: exactly the non-null elements of the list, never more than it has |
| Scopes.Scoped.constructor | src/Scoped.cs:52-98 | a new scope has a slot array of ScopeCount nulls and an empty disposal list |
| Scopes.Scoped.EmplaceOrGetScopedInstance | src/Scoped.cs:147-158 | a non-null slot is returned without invoking the builder and nothing changes; a null slot is filled with what the builder returns and no other slot changes; the outcome is EvalSlot's |
| Scopes.Scoped.Resize | src/Scoped.cs:164-171 | a fresh array of ScopeCount nulls replaces the slot array, so nothing carries over; a negative count or a disposed scope raises |
| Scopes.Scoped.Dispose | src/Scoped.cs:177-204 | the first call releases the non-null elements of the disposal list in index order and drops the list and the slots; later calls release nothing; the scope is disposed afterwards |
| Scopes.Run | src/Scoped.cs:147-158 | invoking a compiled delegate on a scope has exactly the outcome Eval gives for its plan, and keeps the scope's slot array and disposed flag |
| Scopes.RunAll | src/ExpressionGenerator.cs:180-207 | the arguments are evaluated left to right with the outcome EvalAll gives |
| Scopes.EvalAllStopsAtFault | src/ExpressionGenerator.cs:180-207 | once an argument raises, the arguments after it are not evaluated |
| Scopes.Inc32 | src/ExpressionGenerator.cs:409 | `++ScopeIndex` on a 32-bit int adds one, wrapping int.MaxValue to int.MinValue |
| Scopes.Runtime.SetScopeIndex | src/Scoped.cs:66-70 | the setter stores the value |
| Scopes.Runtime.SetScopeCount | src/Scoped.cs:80-88 | the setter stores the value and then resizes ContainerScope: a null ContainerScope raises; otherwise its slots become ScopeCount nulls, unless the count is negative or the scope disposed |
| Scopes.Runtime.NewScope | src/Scoped.cs:52-120 | a negative ScopeCount makes the allocation raise; otherwise a fresh live scope with ScopeCount null slots and an empty list |
| Lifecycles.Lifetimed | src/ExpressionGenerator.cs:383-415 | Transient keeps the expression; Singleton turns it into a constant holding the object one invocation returns; Scoped binds it to the current ScopeIndex, which then moves on; only Scoped moves ScopeIndex and only Singleton builds objects |
| Lifecycles.CreateLifetimeExpression | src/ExpressionGenerator.cs:383-415 | the expression and the new ScopeIndex and object counter are those of Lifetimed; Transient changes nothing; a Singleton plan that needs the scope parameter raises |
| Lifecycles.AddCleanup | src/ExpressionGenerator.cs:275-334 | a non-disposable type is left unwrapped; Transient and Scoped get their disposal wrappers; a disposable Singleton's constant joins ContainerScope's list at compile time, a non-constant raises InvalidCastException and a missing list NullReferenceException |
| Lifecycles.CleanupRuns | src/ExpressionGenerator.cs:275-334 | when the compiled delegate runs, a disposable Transient's object joins the resolving scope's list on every run, a disposable Scoped's object only when not yet listed, and otherwise the scope is unchanged |
| Compilers.MakeNew | src/ExpressionGenerator.cs:166-172 | Expression.New succeeds exactly when the argument list matches the constructor's parameter list in length and holds no null; the call then carries the arguments in order |
| Compilers.MakeArray | src/ExpressionGenerator.cs:190-192 | Expression.NewArrayInit succeeds exactly when no item is null, raising ArgumentNull otherwise, and then holds the items in order |
| Compilers.ExpressionsOf | src/ExpressionGenerator.cs:190 | the selection has one entry per registration: its expression, or null where it has none yet |
| Compilers.ExpressionsOfAll | src/ExpressionGenerator.cs:190-192 | no selected entry is null exactly when every registration has an expression |
| Compilers.ParamExpression | src/ExpressionGenerator.cs:184-205 | a parameter contributes exactly one argument when it is a sequence or registered, none otherwise; a sequence parameter succeeds exactly when every element registration has an expression and becomes their array; a registered parameter without expression raises "Expression of type [..] not found" |
| Compilers.ParamExpressions | src/ExpressionGenerator.cs:180-207 | the parameter list succeeds exactly when every parameter does; then it yields one argument per contributing parameter, as many as parameters exactly when all contribute; otherwise the fault is the first failing parameter's |
| Compilers.Matching | src/ExpressionGenerator.cs:144-146 | the candidates are exactly the registrations under the parameter type whose ReturnType is the argument's type |
| Compilers.FoundIsNeverReset | src/ExpressionGenerator.cs:136-157 | the found flag is never cleared, so after one argument matched a later miss raises nothing; only a parameter list shorter than the argument list can fail |
| Compilers.FirstMatchOnly | src/ExpressionGenerator.cs:138-158 | with the `break` after the first match, an override whose every argument matches yields exactly one expression per argument |
| Compilers.FirstMissRaises | src/ExpressionGenerator.cs:154-157 | a miss on the first argument raises "Unable to find type" naming its parameter type |
| Compilers.OverrideBase | src/ExpressionGenerator.cs:114-124 | an override body that is not a constructor call raises "Expression must have a body"; on success the plan calls the body's constructor with one argument per body parameter; a registration constructor without parameters succeeds exactly when the body's constructor has none |
| Compilers.ConstructorBase | src/ExpressionGenerator.cs:166-172 | the constructor call succeeds exactly when every parameter expression succeeds and every parameter contributes an argument; an unregistered parameter leaves the list short and raises an argument mismatch |
| Compilers.Lower | src/ExpressionGenerator.cs:88-94 | a failing base expression fails the compile and leaves the statics alone; Transient keeps the base; Singleton gives a constant; Scoped gives a slot lookup at the current ScopeIndex and moves it on by one with 32-bit wrap |
| Compilers.RegistrationFor | src/ExpressionGenerator.cs:336-374 | the first registration under the type, store unchanged; else for IEnumerable<T>/IList<T> a new Transient registration to List<T>, emplaced; else for a closed generic with a registered definition a new registration closed over the type's arguments with the definition's lifetime, emplaced; else "Please register type:" with the full name |
| Compilers.GetAppend | src/ExpressionGenerator.cs:336-341 | appending a pair keeps the first registration of every other key and of a key that had one |
| Compilers.RegistrationForIsStable | src/ExpressionGenerator.cs:336-374 | a type that resolved once resolves on the next call to the same registration without changing the store |
| Compilers.GetRegistration | src/ExpressionGenerator.cs:336-374 | the method returns RegistrationFor's registration and leaves the store as RegistrationFor says, and the store unchanged on failure |
| Compilers.EmplaceKeepsSound | src/ExpressionGenerator.cs:240-243 | emplacing a fresh closed registration keeps the walk invariant and afterwards the store holds it (or an equal one that won its place) |
| Compilers.ComparerDuplicate | src/Comparer/RegistrationEqualityComparer.cs:11-19 | a registration refused as a duplicate has an equal one in the store, the very same one for the reference-comparing store |
| Compilers.YieldKeepsSound | src/ExpressionGenerator.cs:257-268 | yielding a stored registration keeps the walk invariant |
| Compilers.WalkOfSound | src/ExpressionGenerator.cs:210-272 | GetParameterRegistrations keeps its invariant (every yielded registration was stored when the consumer received it; the store only grows), and a walk that does not raise leaves the cycle guard as it was |
| Compilers.WalkParamsSound | src/ExpressionGenerator.cs:216-269 | the loop over the parameters keeps the walk invariant and the cycle guard |
| Compilers.WalkParamSound | src/ExpressionGenerator.cs:219-268 | one parameter keeps the walk invariant and the cycle guard |
| Compilers.WalkClosedSound | src/ExpressionGenerator.cs:229-254 | the closed-generic branch keeps the walk invariant and the cycle guard |
| Compilers.WalkEachSound | src/ExpressionGenerator.cs:257-268 | walking and yielding each registration under the type keeps the walk invariant and the cycle guard |
| Compilers.GetAllInStore | src/ExpressionGenerator.cs:257 | every registration GetAll returns is in the store |
| Compilers.InStoreGrows | src/ExpressionGenerator.cs:243 | a stored registration stays stored as the store grows |
| Compilers.WalkDetectsCycle | src/ExpressionGenerator.cs:212 | walking a type already on the guard raises the circular-reference exception, whose message names that type then the path back, and neither the store nor what was yielded changes |
| Compilers.WalkYieldsStored | src/ExpressionGenerator.cs:210-272 | from an empty guard the store only grows, the guard ends empty on success, and every yielded registration is in the store the consumer saw and (by reference) in the final store |
| Compilers.CompileExpression | src/ExpressionGenerator.cs:75-101 | a registration with an expression compiles to it and nothing changes; otherwise Registration.Expression becomes Lower's expression, ScopeIndex and the object supply move as Lower says, and the result is it wrapped by AddCleanup; a disposable Singleton is appended to the container scope's disposables instead, and a missing container scope raises a null reference |
| ExpressionGenerators.ExpressionGenerator.constructor | src/ExpressionGenerator.cs:30-33 | the generator works on the given shared registrations |
| ExpressionGenerators.ExpressionGenerator.Compile | src/ExpressionGenerator.cs:75-108 | the registration has its expression afterwards, its old one kept and no other changed; the delegate is the compiled expression, and the cache holds its registered type afterwards, having gained at most that one entry |
| ExpressionGenerators.ExpressionGenerator.Cache | src/ExpressionGenerator.cs:83 | the cache holds the key afterwards and has gained at most the one entry |
| ExpressionGenerators.ExpressionGenerator.Create | src/ExpressionGenerator.cs:44-63 | an unresolvable root type raises what GetRegistration raises, and a root whose dependency walk raises makes the call raise; on success the store is the one the walk leaves, every yielded registration then the root has an expression and a delegate cached under its registered type, no expression is ever replaced, and the delegate returned is the root's compiled delegate |
| ExpressionGenerators.ExpressionGenerator.CreateFor | src/ExpressionGenerator.cs:53-62 | a root whose dependency walk raises makes the call raise; otherwise the walk's yields are compiled in order, then the root, and the delegate returned is the root's, as Create states |
| ExpressionGenerators.ExpressionGenerator.CompileRoot | src/ExpressionGenerator.cs:62 | compiling the root keeps every yielded registration compiled and adds the root's expression and cached delegate, against the store the walk left; the delegate returned is the one Compile gives the root |
| ExpressionGenerators.ExpressionGenerator.CompileYields | src/ExpressionGenerator.cs:55-59 | on success every yielded registration has an expression and a cached delegate, and the cache only grew |
| ExpressionGenerators.ExpressionGenerator.CompileYield | src/ExpressionGenerator.cs:58 | one more yielded registration is compiled and cached, and those before it stay so |
| ExpressionGenerators.GetOrCreate | src/Collections/HashMap.cs:176-206 | a probe fault is returned; a cached delegate is returned as stored with the registrations, the object supply and the scopes unchanged; a miss raises what GetRegistration or the walk raises, or returns the root's compiled delegate with everything the walk yields compiled, as Create states; the cache only grows |
| DependencyResolvers.ContinuesByFresh | src/DependencyResolver.cs:262-263 | storing a registration created with the next identity only grows the store and keeps every identity below the supply |
| DependencyResolvers.NewOf | src/DependencyResolver.cs:177-188 | the constructor call has one argument per constructor parameter, and building it only grows the store |
| DependencyResolvers.ArgsFrom | src/DependencyResolver.cs:196-268 | GetParameterExpressions yields one expression per remaining parameter or raises, and only grows the store |
| DependencyResolvers.ArgFor | src/DependencyResolver.cs:205-266 | a non-generic parameter leaves the store alone and raises "<type> not registered" without a registration, "<type> expression not resolved" when its registration has no expression; a registration with an expression gives that expression, store unchanged |
| DependencyResolvers.FirstExpressions | src/DependencyResolver.cs:207-221 | one expression per type: that of its first registration |
| DependencyResolvers.ArgsResolved | src/DependencyResolver.cs:203-222 | parameters of non-generic types whose first registrations have expressions become those expressions in order, store unchanged |
| DependencyResolvers.NewOfResolved | src/DependencyResolver.cs:177-188 | such a constructor becomes New over the first registrations' expressions, store unchanged |
| DependencyResolvers.ArgsUnregistered | src/DependencyResolver.cs:211-214 | the first unregistered non-generic parameter, after resolved ones, raises "<type> not registered" and stores nothing |
| DependencyResolvers.ClosedArg | src/DependencyResolver.cs:239-266 | a generic parameter with neither a closed registration nor a registered definition yields null and stores nothing; with a registered definition, a registration closing it over the arguments is stored and built inline |
| DependencyResolvers.BaseOf | src/DependencyResolver.cs:120-188 | an override gives OverrideBase's result with every match kept, store unchanged; otherwise a constructor call with one argument per parameter |
| DependencyResolvers.TargetOf | src/DependencyResolver.cs:288-335 | a non-generic parameter walks itself, IEnumerable<T> walks T (raising when there is no argument), a closed generic with a registered definition walks the definition's registered type closed over its arguments, storing a new registration for it unless one is stored |
| DependencyResolvers.DependencyResolver.constructor | src/DependencyResolver.cs:52-57 | an empty DelegateCache of 256 slots, load factor 0.5, reference hashing and raising at its PSL limit of 127, and an empty KeyCache of 32 |
| DependencyResolvers.DependencyResolver.Express | src/DependencyResolver.cs:440-452 | the registration's expression is the lifetime transform of BaseOf's expression, with the store BaseOf leaves; a failing base changes no expression and no static |
| DependencyResolvers.DependencyResolver.Publish | src/DependencyResolver.cs:455-460 | Registration.Value becomes AddCleanup's plan and the DelegateCache holds it under the registered type; a disposable Singleton is added to the container scope's disposables |
| DependencyResolvers.DependencyResolver.Store | src/DependencyResolver.cs:458-460 | Registration.Value is set, and the cache gains at most that one entry and holds it afterwards |
| DependencyResolvers.DependencyResolver.CompileOne | src/DependencyResolver.cs:432-461 | a registration with an expression is skipped with nothing changed; any other gets Express's expression, then Publish's delegate |
| DependencyResolvers.DependencyResolver.CompileStep | src/DependencyResolver.cs:432-461 | after one turn of the foreach the registration has an expression, the store only grew and the cache only grew |
| DependencyResolvers.DependencyResolver.Walk | src/DependencyResolver.cs:272-353 | a parameterless non-root yields nothing and changes nothing, a parameterless root compiles only itself; with parameters and no fuel left it raises OutOfFuel, and a type already on the guard raises the cycle exception; on success the guard is as before and the root has an expression and is the last registration compiled; the store and the expressions only grow |
| DependencyResolvers.DependencyResolver.Nest | src/DependencyResolver.cs:286-352 | a registration whose type is already on the guard raises the cycle exception naming the path with that type appended and changes no registration; on success the guard is as before, and a root walk leaves the root with an expression as the last registration compiled; the store and the expressions only grow |
| DependencyResolvers.DependencyResolver.Descend | src/DependencyResolver.cs:286-345 | the registered type is pushed, raising the cycle exception when already on the guard, then each parameter is walked; on success the guard carries one more entry |
| DependencyResolvers.DependencyResolver.WalkParams | src/DependencyResolver.cs:288-345 | walking all parameters leaves the guard as it was on success and only grows the store and the expressions |
| DependencyResolvers.DependencyResolver.Finish | src/DependencyResolver.cs:347-352 | the root is yielded and compiled, then the guard is popped |
| DependencyResolvers.DependencyResolver.WalkParam | src/DependencyResolver.cs:291-344 | a fault deciding the target changes nothing; on success every registration of the target type, in the store the target left, has an expression and is the last of its own run of compile steps |
| DependencyResolvers.DependencyResolver.WalkAll | src/DependencyResolver.cs:336-344 | on success every registration of the list has an expression, each is compiled after everything its own walk yielded (post-order), and the guard is as it was |
| DependencyResolvers.DependencyResolver.WalkOne | src/DependencyResolver.cs:338-343 | after walking and yielding one registration it has an expression, is the last registration compiled, and the guard is as it was |
| DependencyResolvers.DependencyResolver.WalkBelow | src/DependencyResolver.cs:338-341 | the nested walk of a non-root registration leaves the guard as it was on success, and the store and the expressions only grow |
| DependencyResolvers.DependencyResolver.Compile | src/DependencyResolver.cs:427-465 | on success the root has an expression, is the last registration compiled, and the result is its Registration.Value, null when it has none; a parameterless root compiles only itself and succeeds when it has an expression already; a root with parameters and no fuel raises OutOfFuel |
| DependencyResolvers.DependencyResolver.CreateDelegate | src/DependencyResolver.cs:68-100 | an unregistered non-generic type gets the null delegate and changes nothing; a registered type compiles its first registration; an unregistered generic gets null when its definition is unregistered, and otherwise a registration of the type itself closing the definition's return type, stored then compiled |
| DependencyResolvers.DependencyResolver.Synthesise | src/DependencyResolver.cs:95-98 | the new registration has the next identity, the given types and lifetime, and is emplaced under the type |
| DependencyResolvers.DependencyResolver.CreateDelegates | src/DependencyResolver.cs:107-114 | the k-th delegate is what CreateDelegate (as CreatesDelegate states) gives the registered type of the k-th registration under the key, starting from the store the earlier calls left; the first failure ends the enumeration with its fault; on success there is one delegate per registration |
| DependencyResolvers.DependencyResolver.CreateNext | src/DependencyResolver.cs:110-113 | one more CreateDelegate extends the run: its outcome and the store it leaves are appended; a success appends its delegate to the gathered result and a failure ends the gathering with its fault |
| DependencyResolvers.DependencyResolver.GetDelegate | src/Collections/DelegateCache.cs:255-271 | a delegate found in the probe window is returned with nothing changed; a miss returns what CreateDelegate creates |
| DependencyResolvers.DependencyResolver.GetDelegates | src/Collections/DelegateCache.cs:278-298 | a probe fault changes nothing; otherwise the delegates found in the probe window from the key's Type.GetHashCode home, in slot order, then the delegates CreateDelegates produces for the registrations under the key, in order, with its fault when one raises |
| DependencyResolvers.CachedThenCreated | src/Collections/DelegateCache.cs:291-297 | the found delegates come first, then what CreateDelegates produced, each created one still tied to its CreateDelegate outcome; a creation fault is passed on |
| DependencyResolvers.CreatesDelegatesStep | src/DependencyResolver.cs:110-113 | a run of successful CreateDelegate calls followed by one more is again such a run, one element longer |
| Containers.ItemRegistration | src/Container.cs:84-88 | an item registers its ServiceType as implemented by its ImplementationType, with its lifetime converted, no key and no override |
| Containers.RegisterAllGrows | src/Container.cs:82-89 | registering a collection only appends, at most one pair per item, and keeps identities below the next free one |
| Containers.RegisterAllOtherKeys | src/Container.cs:82-89 | the registrations of a type no item registers are left as they were |
| Containers.FirstKeyed | src/Container.cs:424-433 | the index of the first registration whose key hash is the one sought, none exactly when no registration has it |
| Containers.ScanForKey | src/Container.cs:424-433 | the loop stops at the first registration with the key hash, as FirstKeyed states |
| Containers.Container.constructor | src/Container.cs:41-47 | an empty store comparing registrations with RegistrationEqualityComparer, a generator over it, an empty delegate cache of 64 slots with load factor 0.5, and a fresh ContainerScope with one null slot per scoped registration and no disposables |
| Containers.Container.Child | src/Container.cs:53-59 | CreateChildContainer's container shares the given store, with a new generator, an empty delegate cache of 64 slots with load factor 0.6 and a fresh ContainerScope |
| Containers.Container.Register | src/Container.cs:97-370 | every overload emplaces one new registration under its registered type: Transient by default, with the key's hash when a key is given and the override when an expression is given |
| Containers.Container.RegisterServiceCollection | src/Container.cs:69-90 | the container as an IContainer Singleton whose expression is itself, then the scope factory as an IServiceScopeFactory Singleton, then every item registered in order |
| Containers.Container.RegisterSelf | src/Container.cs:71-76 | the IContainer registration is emplaced with the container as constant expression |
| Containers.Container.RegisterItems | src/Container.cs:82-89 | the items are registered one after the other, as RegisterAll states |
| Containers.Container.Invoke | src/Container.cs:391 | invoking a delegate with a scope has the outcome Eval gives, on that scope and the object supply |
| Containers.Container.Resolve | src/Container.cs:377-407 | the delegate Lookup gives, cached or compiled on a miss as LookedUp states, is invoked on the given scope with Eval's outcome; every fault of the lookup is returned; a cached delegate runs on the scope and object supply as they were; on success the cache only grows |
| Containers.Container.Lookup | src/Collections/HashMap.cs:176-206 | the outcome LookedUp describes: a probe fault, a cached delegate returned with no object built and the scopes unchanged, or on a miss GetRegistration's fault, a fault when the walk raises, or the root's compiled delegate as Create states; the cache only grows |
| Containers.Container.InvokeFound | src/Container.cs:391 | a lookup fault is passed on; a delegate is invoked with Eval's outcome and the store and cache are untouched |
| Containers.Container.ResolveKey | src/Container.cs:415-436 | a key already in the key cache is invoked with ContainerScope and the store unchanged; a key no registration has returns null with nothing changed; a match caches a delegate under the key's hash |
| Containers.Container.CompileKeyed | src/Container.cs:426-431 | after a match the key cache gains at most the entry for the hash, and holds it on success |
| Containers.Container.CacheAndInvoke | src/Container.cs:430-431 | the key cache maps the hash to the delegate, which is then invoked with ContainerScope with Eval's outcome |
| Containers.Container.CreateScope | src/Container.cs:443 | a fresh undisposed scope with one null slot per scoped registration and no disposables; a negative ScopeCount raises |
| Containers.Container.Dispose | src/Container.cs:454-470 | the first call disposes ContainerScope, releasing its non-null disposables in order; a later call releases nothing and changes nothing |
| HashMaps.PslLimit | src/Collections/HashMap.cs:317-350 | the limit table gives between 4 and 105 probes for every size, 10 for a size not listed |
| HashMaps.PslLimitGrows | src/Collections/HashMap.cs:319-346 | for the listed sizes 2^4 .. 2^29 the limit is at least the exponent and grows strictly with the size |
| HashMaps.SizeBounds | src/Collections/HashMap.cs:67-80 | a requested length up to 2^30 rounds to a power of two between it and 2^30, whose bit length is at most 31 |
| HashMaps.RunFind | src/Collections/HashMap.cs:179-205 | the scan from the home slot raises only by running off the array |
| HashMaps.HasKeyBelow | src/Collections/HashMap.cs:216-234 | the do-while scan raises only by running off the array |
| HashMaps.RunFindSound | src/Collections/HashMap.cs:179-205 | a value the scan finds is stored under the key |
| HashMaps.RunFindFinds | src/Collections/HashMap.cs:190-201 | a scan over occupied slots reaches a key stored further along them |
| HashMaps.GetExact | src/Collections/HashMap.cs:176-206 | on a consistent table Get finds a value exactly when the key is stored, and what it finds is stored under the key |
| HashMaps.ContainsExact | src/Collections/HashMap.cs:216-234 | the scan of the window home .. home + current PSL, inclusive, answers true exactly when the key is stored |
| HashMaps.ContainsMissesLastSlot | src/Collections/HashMap.cs:219-231 | two keys of the same home slot, the second at PSL 1 with current PSL 1: Contains as written answers false although the key is stored, while the inclusive scan answers true |
| HashMaps.InsertKeepsUnique | src/Collections/HashMap.cs:106-110 | storing a key that is not stored keeps at most one entry per key |
| HashMaps.HashMap.constructor | src/Collections/HashMap.cs:67-93 | an empty table of NextPow2(length) slots plus the PSL limit and one, length 0 taken as 8; the mask, the PSL limit (Log2 at load factor one half or less, PslLimit above), the truncated threshold and the shift as the constructor sets them |
| HashMaps.HashMap.Get | src/Collections/HashMap.cs:176-206 | the lookup is the scan RunFind from the home slot |
| HashMaps.HashMap.Contains | src/Collections/HashMap.cs:216-234 | the lookup as written is HasKeyBelow, over home .. home + current PSL - 1 and at least the home slot |
| HashMaps.HashMap.ContainsKey | src/Collections/HashMap.cs:216-234 | the corrected lookup scans the window home .. home + current PSL inclusive |
| HashMaps.HashMap.Emplace | src/Collections/HashMap.cs:95-167 | with the corrected inclusive window check: false stores nothing and the key was present; true adds exactly the pair and one to Count; with every entry in its window the answer is exactly whether the key was new; a table at its threshold grows first |
| HashMaps.HashMap.AddIfAbsent | src/Collections/HashMap.cs:103-166 | after the resize check: a key found in its inclusive window is refused with nothing changed, otherwise the pair is inserted and Count goes up by one |
| HashMaps.HashMap.EmplaceWithContains | src/Collections/HashMap.cs:95-167 | Emplace as written: false still means the key was present, true adds exactly the pair and one to Count; nothing rules out a stored key being added again |
| HashMaps.HashMap.AddUnlessContained | src/Collections/HashMap.cs:103-166 | whenever the as-written Contains scan answers false the pair is stored, so with ContainsMissesLastSlot a key in the last slot of its window is stored twice; a true answer refuses the pair with nothing changed |
| HashMaps.HasKeyBelowSound | src/Collections/HashMap.cs:216-234 | a key the as-written scan finds is in the table |
| HashMaps.HashMap.TrackPsl | src/Collections/HashMap.cs:128-132 | the current PSL becomes the larger of itself and the probe's PSL |
| HashMaps.HashMap.Exchange | src/Collections/HashMap.cs:146-147 | the slot takes the carried entry and hands back its former contents; the stored multiset trades one for the other |
| HashMaps.HashMap.PlaceAt | src/Collections/HashMap.cs:135-141 | the empty slot takes the entry, which is added to the contents, and Count goes up by one |
| HashMaps.HashMap.Insert | src/Collections/HashMap.cs:113-166 | the probe loop adds exactly the entry and one to Count, never shrinking the table |
| HashMaps.HashMap.Displace | src/Collections/HashMap.cs:144-149 | the richer resident is carried on, the stored multiset keeping its elements |
| HashMaps.HashMap.InsertStep | src/Collections/HashMap.cs:127-165 | one pass either finishes, adding the entry, or moves on with the contents and the carried entry together unchanged |
| HashMaps.HashMap.ResizeThenPlace | src/Collections/HashMap.cs:151-158 | at the maximum PSL, Count goes up, the table grows and the carried entry is stored |
| HashMaps.HashMap.EmplaceInternal | src/Collections/HashMap.cs:246-283 | the entry is added to the contents, with no uniqueness check, and with every entry in its window beforehand it stays so unless the PSL bookkeeping lost track |
| HashMaps.HashMap.ProbeAt | src/Collections/HashMap.cs:255-282 | one pass of the do-while either places the carried entry (the contents then being the target), swaps it with a poorer resident at the same slot, or moves to the next slot; the contents with the carried entry stay the target |
| HashMaps.HashMap.PlaceEmpty | src/Collections/HashMap.cs:257-262 | an empty slot takes the carried entry, and the contents become the target |
| HashMaps.HashMap.SwapCarried | src/Collections/HashMap.cs:264-268 | a resident with a smaller PSL trades places with the carried entry, whose swap is noted, and probing goes on at the same slot with the target contents unchanged |
| HashMaps.HashMap.Advance | src/Collections/HashMap.cs:271-280 | probing past the last slot raises IndexOutOfRange; otherwise it goes on at the next slot with the same carried entry and the same target contents |
| HashMaps.HashMap.Resize | src/Collections/HashMap.cs:355-391 | the shift goes down by one; the table grows, Count is kept and the contents are the same multiset; past 2^30 slots it returns Overflow with the arrays, the length, the PSL limit, the threshold and the mask unchanged |
| HashMaps.HashMap.Rebuild | src/Collections/HashMap.cs:370-390 | the fresh arrays hold exactly the entries of the copied slots |
| HashMaps.HashMap.Reinsert | src/Collections/HashMap.cs:378-390 | every occupied copied slot is reinserted, so the new table holds exactly their entries |
| HashMaps.HashMap.ReinsertSlot | src/Collections/HashMap.cs:380-388 | an occupied copied slot goes back through EmplaceInternal, adding its entry; an empty one is skipped |
| MultiMaps.HomeIndex | src/Collections/MultiMap.cs:149 | `hashcode & _maxlookupsMinusOne` with a power-of-two mask lands inside the mask's range |
| MultiMaps.FindIn | src/Collections/MultiMap.cs:259-275 | the window scan of Get raises only by leaving the arrays |
| MultiMaps.FindAllIn | src/Collections/MultiMap.cs:282-296 | the window scan of GetAll raises only by leaving the arrays |
| MultiMaps.HasKeyIn | src/Collections/MultiMap.cs:306-321 | the window scan of ContainsKey(key) raises only by leaving the arrays |
| MultiMaps.HasPairIn | src/Collections/MultiMap.cs:332-349 | the window scan of ContainsKey(key, value) raises only by leaving the arrays |
| MultiMaps.HasPairInFinds | src/Collections/MultiMap.cs:339-346 | a pair in a window slot before any index outside the arrays is found |
| MultiMaps.HasPairInSound | src/Collections/MultiMap.cs:339-346 | a pair the scan reports is in the window |
| MultiMaps.FindInFinds | src/Collections/MultiMap.cs:265-272 | a key in a window slot before any index outside the arrays is found |
| MultiMaps.FindInSound | src/Collections/MultiMap.cs:265-272 | a value the scan finds is stored under the key in the window |
| MultiMaps.HasKeyInFinds | src/Collections/MultiMap.cs:312-318 | a key in a window slot is reported |
| MultiMaps.HasKeyInSound | src/Collections/MultiMap.cs:312-318 | a key the scan reports is in the window |
| MultiMaps.FindAllInValues | src/Collections/MultiMap.cs:288-295 | a GetAll scan that completes yields exactly the values under the key in the window, each as often as stored |
| MultiMaps.EmptyTable | src/Collections/MultiMap.cs:125-126 | fresh arrays of default slots store nothing and satisfy the placement invariant |
| MultiMaps.InWindow | src/Collections/MultiMap.cs:164-208 | where placement holds, every stored entry lies within its key's window home .. home + current PSL |
| MultiMaps.GetExact | src/Collections/MultiMap.cs:259-275 | Get finds a value exactly when the key is stored, and the value is stored under the key |
| MultiMaps.ContainsKeyExact | src/Collections/MultiMap.cs:306-321 | ContainsKey(key) is true exactly when the key is stored |
| MultiMaps.ContainsPairExact | src/Collections/MultiMap.cs:332-349 | ContainsKey(key, value) is true exactly when the pair is stored |
| MultiMaps.GetAllExact | src/Collections/MultiMap.cs:282-296 | a GetAll scan of the home window that completes yields every value stored under the key, as often as stored |
| MultiMaps.KeyInWindow | src/Collections/MultiMap.cs:164-208 | where placement holds, every slot holding the key lies in its window |
| MultiMaps.ShiftCompose | src/Collections/MultiMap.cs:218-250 | one swap and then the rest of the shift is the shift from the slot before |
| MultiMaps.MultiMap.constructor | src/Collections/MultiMap.cs:112-127 | an empty table with `_maxlookups` the given length, mask NextPow2(length) - 1, maximum PSL Log2 of the size below 127 slots and 127 from there, arrays of length + maximum PSL + 1 slots |
| MultiMaps.MultiMap.ContainsPair | src/Collections/MultiMap.cs:332-349 | the answer is the window scan for the pair from the key's home slot |
| MultiMaps.MultiMap.ContainsKey | src/Collections/MultiMap.cs:306-321 | the answer is the window scan for the key from its home slot |
| MultiMaps.MultiMap.Get | src/Collections/MultiMap.cs:259-275 | the first value under the key in its window, none for the default |
| MultiMaps.MultiMap.GetAll | src/Collections/MultiMap.cs:282-296 | every value under the key in the window from the home slot of the key's Type.GetHashCode, in slot order |
| MultiMaps.MultiMap.Exchange | src/Collections/MultiMap.cs:191-192 | the slot takes the carried entry and hands back its former contents; the stored multiset trades one for the other |
| MultiMaps.MultiMap.Emplace | src/Collections/MultiMap.cs:141-209 | false stores nothing and the pair was present; true adds exactly the pair and one to Count; with placement kept the answer is exactly whether the pair was new; only the DelegateCache raises InvalidOperation |
| MultiMaps.MultiMap.TrackPsl | src/Collections/MultiMap.cs:166-169 | the current PSL becomes the larger of itself and the probe's PSL, nothing else changes |
| MultiMaps.MultiMap.CarryInto | src/Collections/MultiMap.cs:236-245 | a step of the shift: the current PSL grows, then the next slot takes the carried entry and hands back its former contents |
| MultiMaps.MultiMap.PlaceAt | src/Collections/MultiMap.cs:171-177 | the empty slot takes the entry, which is added to the contents, and Count goes up by one |
| MultiMaps.MultiMap.JoinRun | src/Collections/MultiMap.cs:180-186 | the equal-hashcode branch adds exactly the entry, and raises nothing of InvalidOperation |
| MultiMaps.MultiMap.ResizeThenPlace | src/Collections/MultiMap.cs:203-206 | the table grows and the carried entry is added |
| MultiMaps.MultiMap.EmplaceInternal | src/Collections/MultiMap.cs:431-483 | the probe loop adds exactly the entry and keeps the placement invariant unless it wraps; it raises InvalidOperation only when asked to, as DelegateCache.Emplace does, never on the reinsertions |
| MultiMaps.MultiMap.Probe | src/Collections/DelegateCache.cs:160-204 | one pass either finishes, adding the entry, or goes on one slot further with the contents and the carried entry together unchanged; at PSL 127 the DelegateCache raises InvalidOperation instead of resizing |
| MultiMaps.MultiMap.StartSwapping | src/Collections/MultiMap.cs:218-250 | the carried entry and the run after it move one slot further until an empty slot absorbs the last; the slots change exactly as Shifted says, or the table resizes at `_maxlookups` |
| MultiMaps.MultiMap.SwapOn | src/Collections/MultiMap.cs:227-249 | a carried entry that is not empty either resizes the table at `_maxlookups` or takes the next slot and carries that slot's resident on; the contents gain exactly the carried entry, none of this raises InvalidOperation, and without a resize the slots change as Shifted says |
| MultiMaps.MultiMap.SwapFrom | src/Collections/MultiMap.cs:242-249 | after the next slot has taken the carried entry, swapping goes on from that slot with its former resident, and the slots change as one Shifted run from the first slot |
| MultiMaps.MultiMap.Resize | src/Collections/MultiMap.cs:395-422 | the table grows and keeps exactly the same entries in fresh arrays |
| MultiMaps.MultiMap.Rebuild | src/Collections/MultiMap.cs:407-421 | the fresh arrays hold exactly the entries of the copied slots |
| MultiMaps.MultiMap.ReinsertSlot | src/Collections/MultiMap.cs:414-420 | an occupied old slot is added back, an empty one skipped |
| MultiMaps.MultiMap.Reinsert | src/Collections/MultiMap.cs:412-421 | every occupied copied slot is reinserted, so the new table holds exactly their entries |

## Left out

- Expression trees and their compilation are a foreign library. They are replaced by the `Plan` datatype and its interpreter `Eval`.
- Reflection is not modelled. `Types.Universe` is an uninterpreted parameter holding constructor parameters, `IDisposable`, `Name` and `FullName`. The model states nothing about how a constructor is chosen.
- Hash sources are parameters of the tables: `RuntimeHelpers.GetHashCode`, `Type.GetHashCode` and `string.GetHashCode`. MultiMap takes two of them, because `Get` and `ContainsKey` hash with `RuntimeHelpers.GetHashCode` while `GetAll` hashes with `Type.GetHashCode`. HashMap takes one hash for both `RuntimeHelpers.GetHashCode` (HashMap.cs lines 103 and 179) and the `Type.GetHashCode` that `EmplaceInternal` re-homes entries with (line 248), so the two are assumed to agree there.
- Reference equality of keys and values is modelled as `==` on values.
- The 16-byte vector comparison is a loop that builds the mask. The hardware-acceleration check and its exception are left out, as are unsafe memory access and the DEBUG `Find`; the latter two are modelled as plain indexing.
- Load factors are rationals. Each threshold is the integer the code derives from its `double`.
- The grouped-table threshold is not truncated the way `ExpressionFactory`'s fixed threshold of 8 is.
- The `Interlocked` updates of `ScopeIndex` and `ScopeCount`, and thread safety, are not modelled: the updates are plain assignments.
- The statics `Scoped.ScopeIndex`, `Scoped.ScopeCount`, `Container.ContainerScope` and the supply of object identities are fields of one `Scopes.Runtime` object.
- The enumerators of `GetAll`, `Values` and the parameter walks are not lazy.
  - A walk is fused with its consumer: every yielded registration is compiled at the point it is yielded. Side effects keep the source's order.
  - A `GetAll` is a snapshot of the table at the call.
- The parameter walks take a `fuel` bound on their recursion depth. Running out is the `OutOfFuel` outcome. The source has no such bound; the model claims nothing about walks deeper than the fuel.
- `FastMap`, the key cache of Container, is a `map`.
- `InfoByte` of HashMap comes from a library that is not part of this model. It is mirrored by `MetaByte`, with the hashcode unused.
- `ServiceCollection`, `IServiceScope` and `IServiceScopeFactory` are not modelled, and neither is the ScopeFactory wrapper. Service descriptors are only of the implementation-type form; factory and instance descriptors are left out.
- `Registration` is not part of this model. It is a class with an identity whose `Expression` and `Value` live in maps keyed by that identity. The `Registries` store keeps registrations in insertion order.
- Container and ExpressionGenerator call members that do not exist in this snapshot of MultiMap: a four-argument constructor taking a comparer, and `Get(type, out reg)`. The comparer is the store's duplicate `Policy`, and the lookup returns an `Option`.
- MultiMap's `Values` enumeration order is not modelled: the store is read in insertion order.
- In MultiMap the exception at PSL 127 is commented out, and only DelegateCache raises it. The model follows the code: `throwAtPslLimit` is set only for the DelegateCache.
- A Singleton or Scoped compilation of a plan that uses the scope parameter leaves that parameter unbound, and the expression library raises. The model raises `InvalidOperation` with the library's message as a constant; the library itself is not modelled.
- A `null` result of Get is `None`.
- HashMaps.HashMap.constructor: requires a positive load-factor denominator and a length of at most 2^30. Larger lengths make the C# array sizes overflow, and that failure is left out.
- GroupedTables.GroupedTable.constructor: requires a length of at most 2^30, where the source takes any `uint` (RegistrationFactory.cs line 84). Above 2^30 the rounding up gives 2^31, and 0 above 2^31, and the `_length + 16` allocations (lines 118-119) fail or misbehave; that case is left out. The callers in this model pass 16.
- MultiMaps.MultiMap.constructor: requires a positive load-factor denominator and a length whose arrays fit the runtime's array limit; the out-of-memory case is left out.
- Containers.Container.constructor: requires a non-negative `ScopeCount`, because a negative one raises in the first scope's allocation.
- Containers.Container.ResolveKey: on the matching branch it states that the delegate is cached under the key, not the equation of the delegate's run.
- Containers.Container.CompileKeyed: compiles the registered type of the first matching registration, as the source does. Whether that is the keyed registration itself is not stated.
- DependencyResolvers: plans are compared structurally. The check `reg.Expression != null` on a path where no expression has been set cannot succeed there and is not modelled separately. The resolver's unused key cache is left out.
- The tombstone marker (-126) of the grouped tables is declared but never written by the code, so no slot holds it. The model has only the empty marker and fragments.
- HashMaps.HashMap.Resize: when the next size passes 2^30 it returns `Overflow` with only the shift decremented, where the C# has also changed `_length`, `_maxProbeSequenceLength`, `_maxlengthBeforeResize` and `_maxEntriesMinusOne` (HashMap.cs lines 357-362) before the allocation at line 370 raises.
- HashMaps.HashMap.EmplaceInternal: homes a re-inserted entry with the table's single hash, where the source uses `Type.GetHashCode`; see the hash sources above.
- HashMaps.HashMap.Emplace: checks for a stored key with the corrected inclusive `ContainsKey`, so it never stores a key twice while every entry lies in its window (`Windowed()`, kept while the ghost flag `untracked` is false). After a resize, the PSL tracking of `EmplaceInternal` can leave an entry outside its window, and a second copy of that key can then be stored. The code as written is `HashMaps.HashMap.EmplaceWithContains`, whose `Contains` misses the window's last slot (see Findings).
- HashMaps.HashMap.Emplace: the ghost flag `untracked` is not characterised: nothing says when it is false, so the clause "the answer is exactly whether the key was new" holds only under it.
- MultiMaps.MultiMap.Emplace: the ghost flag `wrapped`, set when a PSL passes 127 and wraps, is not characterised, so "the answer is exactly whether the pair was new" holds only when it is false.
- MultiMaps.MultiMap.EmplaceInternal: placement is kept only when the ghost flag `wrapped` is false, and nothing bounds when it is true.
- Registries.GetAll: reads the store in insertion order, where the source reads MultiMap's slots in slot order. With IFoo mapped to A, then B, then C, the slots hold A, C, B (each new entry of the same hash goes to the home slot plus one and pushes the run on), so the source yields A, C, B and the model A, B, C.
- Registries.Get: returns the first registration in insertion order, where the source returns the first in slot order. With A at IFoo's home slot and B after it, a foreign key of the same home with PSL 1 displaces A, which rejoins the run behind B: the source then returns B, the model A.
- Registries.Values: one registration per stored pair in insertion order, where RegistrationFactory enumerates its slots.
- GroupedTables.GroupedTable.GetAll: states the set of values yielded, not the order of the probe.
- GroupedTables.GroupedTable.Resize: on Overflow the model changes nothing, where the source has already changed `_shift`, `_length`, `_lengthMinusOne` and `_maxLookupsBeforeResize` (RegistrationFactory.cs lines 336-341) before the array allocation fails.
- Containers.Container.Child: requires a non-negative `ScopeCount`, because a negative one raises in the new ContainerScope's allocation; a constructor cannot return that fault. `CreateScope` models the same raise as an error result.
- DependencyResolvers.DependencyResolver.Compile: states when the call fails only for a root with parameters and no fuel; which cycle or compile faults end the walk is stated by Walk and Nest, not carried up to Compile.
- ExpressionFactories.ExpressionFactory.Create: besides GetRegistration's fault and the walk's, which compile faults make the call fail is not stated.
- ExpressionGenerators.ExpressionGenerator.Create: besides GetRegistration's fault and the walk's, which compile faults make the call fail is not stated.

## Findings

| source | as written | input that shows it | evidently intended | confidence | as-written member | corrected member |
|---|---|---|---|---|---|---|
| src/Collections/HashMap.cs:216-234 | `Contains` scans while `index < home + currentPsl`, so it never looks at slot home + currentPsl, the last slot of the window that Emplace fills | two keys with the same home slot, the second stored at PSL 1 with current PSL 1: `Contains` of the second key is false | scan the whole window home .. home + currentPsl, as MultiMap's lookups do | not executed | HashMaps.HashMap.Contains, with HashMaps.ContainsMissesLastSlot; HashMaps.HashMap.EmplaceWithContains, which stores the key a second time (HashMaps.HashMap.AddUnlessContained) | HashMaps.HashMap.ContainsKey, with HashMaps.ContainsExact; Emplace uses it |
