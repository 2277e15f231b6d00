# Verification of the xtd storage, parsing, RPC and concurrency cores

This project models the hardest parts of the xtd C++ library in Dafny and proves what they promise:

- **The on-disk B+ tree** (`btree.hpp`, `lru_cache.hpp`). `BTree.BTree` is the container: its methods work on page
  objects that are fetched through an evicting cache and written in place. A ghost page store says what the pages
  hold, and the tree that they spell out is a value whose nodes carry their page numbers. One predicate,
  `BTreeFile.FileShows`, ties the whole file together: the search tree, the doubly linked leaf chain, the header
  counters, the free list threaded through dead pages, and the accounting of every page as header, node or free and
  only one of these. Every public method keeps it, gives the answer a finite map gives, and says which pages it took
  or reclaimed.
- **The two parser libraries** (`parse_ast.hpp`, `parse.hpp`). One specification, two object-oriented
  implementations that are both proved equal to it, errors included. The specification is sound and complete for a
  declarative semantics by derivations; its tree is the only one that accounts for the input by the grammar; its
  error log is the one read off the derivation; and case-insensitive parsing cannot see letter case. Grammars may be
  recursive but not left-recursive; what enters itself first is shown to have no outcome at all.
- **RPC marshalling and dispatch** over the in-process transport (`rpc.hpp`): a prefix-free codec, and a call that
  equals calling the handler.
- **The re-entrant spin lock** (`recursive_spin_lock.hpp`) under all interleavings of atomic steps: the lock is
  right throughout a run if and only if no unlock in it takes the 32-bit counter to zero too early.
- **The nibble-trie hash map** (`hash_map.hpp`): the leaf slots under all interleavings, and the whole trie run by
  one thread.

## How the files fit together

| file | holds |
|---|---|
| `Lru.dfy` | the page cache's replacement policy |
| `BTreeModel.dfy`, `BTreeInsert.dfy`, `BTreeErase.dfy`, `BTreeMap.dfy`, `BTreeRoot.dfy` | trees as values: shape, order, insertion, erasure, the map they stand for, whole runs, the height bound |
| `BTreePage.dfy`, `BTreePager.dfy` | page objects over arrays; the page file behind its cache and the allocator |
| `BTreeStore.dfy`, `BTreeFile.dfy` | which trees, chains and free lists a page store spells out |
| `BTreeInsertSteps.dfy`, `BTreeEraseSteps.dfy`, `BTreeTop.dfy`, `BTreeShrinkTop.dfy`, `BTreeLookup.dfy` | page write by page write: what each step of an operation does to the file |
| `BTree.dfy`, `BTreeIterator.dfy` | the container and its iterator |
| `ParseGrammar.dfy`, `ParseSpec.dfy`, `ParsePeg.dfy`, `ParseTerminals.dfy`, `ParseUnique.dfy`, `ParseLeft.dfy`, `ParseText.dfy`, `ParseCase.dfy`, `ParseErrors.dfy` | grammar, parsing as a function, and its theorems |
| `ParseAst.dfy`, `ParseRule.dfy` | the two parsers |
| `RpcCodec.dfy`, `Rpc.dfy` | codec; payload, server, transport and client |
| `SpinLock.dfy`, `HashSlot.dfy`, `HashTrie.dfy` | the concurrent pieces |

## Readings of the source

- Keys are `int`. The source asks only for a total order that agrees with equality on a type with finitely many
  values, and any such order embeds in the integers. Values are an arbitrary type.
- The page file hands out some unused index other than 0 when it grows; nothing assumes that indices are consecutive.
  Page 0 is the header. Handles for one index denote the same page, whether or not the cache has evicted it since.
- `append` in the page cache, `allocate_raw` and `free_page_at` are followed exactly, so the order in which freed
  pages are reused is part of the contracts.
- A grammar is a value of type `ParseGrammar.Grammar`; C++ template parameter packs become sequences. The two
  libraries word their messages differently, so an error is the rule that failed and the position. `not_<>` without
  arguments exists only in `parse.hpp`; the model gives it that meaning.
- A parser's characters are their integer codes, so a range compares codes as the source's `char` does whether that
  is signed or not.
- A regular expression is a function from the rest of the input to an optional match length.
- Too short a payload, which the source reads out of bounds, is decoded as `Short`. It does not occur in a call.
- An RPC call id that equals the exception marker makes a result unreadable; `Rpc.AnswerRead` says exactly when.
- A certificate for a grammar may name regular expressions that never match the empty string; recursion behind one of
  them, as behind any other token, is not left recursion (`ParseLeft.TokenGuarded`).
- The lock is right as long as no unlock starts at a depth d > 1 with d - 1 a multiple of 2^32, and not beyond
  (`SpinLock.RightExactly`). Such an unlock frees the lock under its holder (`SpinLock.WrapLetsIn`); the first depth
  at which it can happen is 2^32 + 1 (`SpinLock.WrapReached`).

## Model

| member | source | states |
|---|---|---|
| Lru.LruCache.Index | include/xtd/lru_cache.hpp:31-45 | a lookup returns the value for the key and leaves it in front, evicting from the back only on a miss in a full cache |
| Lru.LruCache.Append | include/xtd/btree.hpp:119-126 | admitting a page appended to the file does to the cache what a lookup of a new key does |
| Lru.RecencyExact | include/xtd/lru_cache.hpp:31-45 | the move-to-front list of an access sequence holds exactly its keys, each once, in descending order of their last access |
| Lru.CacheIsMostRecent | include/xtd/lru_cache.hpp:31-45 | after any access sequence the cache holds at most `size` of the keys accessed, in descending order of their last access, each with its loader's value; a key no longer there was last accessed before every key that is, and the cache is full |
| BTreePage.Page.LowerBound | include/xtd/btree.hpp:254-261 | the binary search finds the first record whose key is not less |
| BTreePage.Page.ChildIndex | include/xtd/btree.hpp:264-271 | the binary search finds the child whose separators enclose the key |
| BTreePage.Page.InsertRecordAt | include/xtd/btree.hpp:292-297 | shifting in place inserts one record at its position and keeps the others in order |
| BTreePage.Page.InsertChildAt | include/xtd/btree.hpp:333-339 | shifting in place inserts one separator and the child to its right |
| BTreePage.Page.OverfullKeys | include/xtd/btree.hpp:354-360 | the temporary key list holds the full branch's keys with the new one in place |
| BTreePage.Page.OverfullKids | include/xtd/btree.hpp:355-361 | the temporary child list holds the full branch's children with the new one in place |
| BTreePage.Page.RemoveChildAt | include/xtd/btree.hpp:406-414 | removing a child drops it and one separator next to it; the only child of a branch stays behind |
| BTreePager.Pager.Fetch | include/xtd/btree.hpp:203-206 | the page reached through the evicting cache is the file's page at that index and shows what the store says |
| BTreePager.Pager.Append | include/xtd/btree.hpp:119-126 | the file grows by one page at an index not used before, and every handle stays good |
| BTreePager.Pager.Allocate | include/xtd/btree.hpp:211-221 | a page comes from the head of the free list, and from the end of the file only when that is empty; no other page changes and no page is lost |
| BTreePager.Pager.Free | include/xtd/btree.hpp:242-249 | a page is pushed onto the free list, whose links and counter stay true |
| BTreeModel.RecsInRange | include/xtd/btree.hpp:264-271 | in a search tree all records lie in their node's range, in strictly ascending key order |
| BTreeModel.DescentFinds | include/xtd/btree.hpp:274-281 | the one leaf that the descent reaches decides whether a key is in the tree |
| BTreeInsert.GrowBalanced | include/xtd/btree.hpp:341-384 | insertion keeps every leaf on the same level, splits included |
| BTreeInsert.GrowWF | include/xtd/btree.hpp:299-384 | insertion keeps separators ascending, keys between their separators, leaves filled with 1 to `order` records and branches with at most `order` keys, on both sides of a split |
| BTreeInsert.GrowRecs | include/xtd/btree.hpp:299-384 | insertion below any node is insertion into its sorted record list, and reports whether the key was new |
| BTreeInsert.GrowPages | include/xtd/btree.hpp:311-379 | the tree after insertion uses its old pages and each newly taken page once |
| BTreeInsert.GrowMiss | include/xtd/btree.hpp:302-304 | a duplicate key changes nothing and needs no page |
| BTreeInsert.SplitsUpward | include/xtd/btree.hpp:345-379 | a node splits exactly when every level below it has split |
| BTreeInsert.LeafShares | include/xtd/btree.hpp:309-330 | a full leaf keeps half of its records, rounded down, the new record goes to its half, and the first key on the right is promoted |
| BTreeInsert.BranchShares | include/xtd/btree.hpp:353-378 | an overfull branch keeps all keys and children around the promoted key, as many on each side or one more on the left |
| BTreeErase.ShrinkRecs | include/xtd/btree.hpp:417-437 | erasure below any node is erasure from its sorted record list, and reports whether the key was there |
| BTreeErase.ShrinkWF | include/xtd/btree.hpp:406-437 | erasure keeps the search-tree invariant, single-child branches included |
| BTreeErase.ShrinkPages | include/xtd/btree.hpp:394-437 | erasure loses no page: each is still in use, reclaimed, or the emptied node's own |
| BTreeErase.CollapseKeeps | include/xtd/btree.hpp:658-669 | collapsing a chain of single-child roots keeps records, leaves and order, lowers the height by the roots dropped, and ends with a leaf or at least two children |
| BTreeErase.AssignViews | include/xtd/btree.hpp:631-638 | overwriting changes one record and moves no page |
| BTreeMap.PutNewMap | include/xtd/btree.hpp:586-621 | inserting into a sorted record list is inserting into the map it stands for, without overwriting |
| BTreeMap.DelMap | include/xtd/btree.hpp:639-671 | erasing from a sorted record list removes exactly that key from the map |
| BTreeRoot.InsertedContents | include/xtd/btree.hpp:589-621 | insertion at the root adds the key to the map, or changes nothing |
| BTreeRoot.InsertedPages | include/xtd/btree.hpp:589-621 | insertion uses every page it took, beside all the old ones |
| BTreeRoot.ErasedKeeps | include/xtd/btree.hpp:643-671 | erasure keeps the invariant, removes exactly the key, and accounts for every page as kept or reclaimed |
| BTreeRoot.RunRefinesMap | include/xtd/btree.hpp:589-681 | after any run of inserts, updates, erases and clears from an empty file the tree is a valid search tree that stands for the map of that run |
| BTreeRoot.InsertOnlyHeight | include/xtd/btree.hpp:309-379 | after insertions alone a tree of height h >= 2 holds at least 2t(t+1)^(h-2) keys, with t = order / 2 |
| BTreeFile.ChainInsert | include/xtd/btree.hpp:317-324 | linking a new leaf in after another keeps the chain, forwards and backwards |
| BTreeFile.ChainRemove | include/xtd/btree.hpp:397-404 | linking a leaf out keeps the chain, forwards and backwards |
| BTreeFile.FileDetermined | include/xtd/btree.hpp:64-84 | tree and free list determine the file: two files with the same of both agree on every page, links, counters and header included |
| BTreeStore.PopKeeps | include/xtd/btree.hpp:213-218 | taking the head keeps the free list acyclic and its counter true |
| BTreeInsertSteps.LeafSplit | include/xtd/btree.hpp:309-330 | the page writes of a leaf split spell out both halves, chain them, and touch nothing else |
| BTreeInsertSteps.BranchSplit | include/xtd/btree.hpp:353-378 | the page writes of a branch split spell out both halves around the promoted median |
| BTreeEraseSteps.BranchLostChild | include/xtd/btree.hpp:394-437 | unlinking, reclaiming and dropping an emptied child spell out the branch without it |
| BTreeShrinkTop.CollapseStep | include/xtd/btree.hpp:658-669 | one turn of the root-collapse loop keeps tree, chain, header and free list together |
| BTree.BTree.constructor | include/xtd/btree.hpp:455-467 | a new file holds the empty map |
| BTree.BTree.Insert | include/xtd/btree.hpp:589-621 | inserts exactly when the key is absent, changes no page otherwise, keeps the whole-file invariant, and takes exactly the pages it needs, free ones first |
| BTree.BTree.InsertNode | include/xtd/btree.hpp:381-384 | insertion below a page does to the file what insertion below that node does to the tree, and reports the split |
| BTree.BTree.HalveLeaf | include/xtd/btree.hpp:309-330 | a full leaf is split into a new right sibling, the record goes to its half, and the first key on the right is promoted |
| BTree.BTree.SplitBranchPage | include/xtd/btree.hpp:353-378 | a full branch is split around the median of its overfull list |
| BTree.BTree.Update | include/xtd/btree.hpp:631-638 | overwrites exactly when the key is present |
| BTree.BTree.InsertOrAssign | include/xtd/btree.hpp:626-628 | the map gets the key with the new value in either case |
| BTree.BTree.Erase | include/xtd/btree.hpp:643-671 | returns 1 and removes the key if it was there, else returns 0 and changes no page; freed pages go to the free list in the order they are reclaimed, and the file does not grow |
| BTree.BTree.EraseNode | include/xtd/btree.hpp:417-437 | erasure below a page does to the file what erasure below that node does to the tree |
| BTree.BTree.RemoveChild | include/xtd/btree.hpp:394-415 | an emptied child is unlinked from the chain and the header, reclaimed and dropped from its parent |
| BTree.BTree.CollapseRoot | include/xtd/btree.hpp:658-669 | the loop terminates with a root that is a leaf or has two children, all records kept |
| BTree.BTree.Clear | include/xtd/btree.hpp:673-681 | the map is empty and every page but the header is free |
| BTree.BTree.FreeSubtree | include/xtd/btree.hpp:441-450 | every page of the subtree is pushed onto the free list once, children before their parent |
| BTree.BTree.FindLeaf | include/xtd/btree.hpp:274-281 | reaches the leaf that would hold the key |
| BTree.BTree.FindValue | include/xtd/btree.hpp:564-582 | finds the key's value exactly when the map has it |
| BTree.BTree.Size | include/xtd/btree.hpp:546 | the header's counter is the size of the map |
| BTreeIterator.Iterator.ToFirst | include/xtd/btree.hpp:533-539 | begin stands on the first record, or at the end |
| BTreeIterator.Iterator.SkipToNonempty | include/xtd/btree.hpp:486-494 | skipping empty leaves, if there are any, does not skip a record |
| BTreeIterator.Iterator.Next | include/xtd/btree.hpp:513-524 | the iterator goes from each record to the next one in key order, and from the last to the end |
| BTreeIterator.Traverse | include/xtd/btree.hpp:475-539 | from begin to end each entry of the map is met once, in strictly ascending key order |
| BTreeLookup.FileGathers | include/xtd/btree.hpp:309-324 | the leaf chain from `_first_leaf` holds exactly the tree's records in key order |
| ParseSpec.Parse | include/xtd/parse_ast.hpp:137-483 | parsing terminates on every ranked grammar; failure restores the cursor, success never moves it back or past the end, and stands still only for a rule that may match nothing |
| ParsePeg.Sound | include/xtd/parse_ast.hpp:137-363 | what parsing finds can be derived: first matching alternative, parts in turn, greedy repetition with the no-progress stop, negative lookahead |
| ParsePeg.Complete | include/xtd/parse_ast.hpp:137-363 | whatever can be derived is what parsing finds |
| ParsePeg.SoundAndComplete | include/xtd/parse_ast.hpp:137-363 | a rule comes to an outcome by some derivation if and only if parsing gives that outcome |
| ParsePeg.TopLevel | include/xtd/parse_ast.hpp:517-537 | a whole parse succeeds exactly when the start rule's match ends at the end of the input |
| ParseTerminals.LiteralComes | include/xtd/parse_ast.hpp:366-391 | with case respected a literal matches exactly where the input, after whitespace, has its characters |
| ParseTerminals.LiteralComesAnyCase | include/xtd/parse_ast.hpp:51-59 | with case ignored a literal matches exactly where the characters are equal up to the case of English letters |
| ParseTerminals.CharacterComes | include/xtd/parse_ast.hpp:394-413 | likewise for a single character, which takes one position |
| ParseTerminals.RangeComes | include/xtd/parse_ast.hpp:416-444 | a range matches exactly a character in the closed interval, written either way round, or one whose other case lies in it when case is ignored |
| ParseTerminals.RegexComes | include/xtd/parse_ast.hpp:447-483 | a regular expression takes exactly what it matches of the rest of the input, and fails at the end of the input |
| ParseUnique.Deterministic | include/xtd/parse_ast.hpp:137-363 | in any grammar, ranked or not, a rule tried at a position comes to at most one outcome |
| ParseLeft.LeftRecursive | include/xtd/parse_ast.hpp:137-363 | a rule whose first entries go in circles comes to no outcome, neither match nor failure, and no certificate ranks its grammar |
| ParseLeft.ExpressionNeverEnds | tests/test_parse.hpp:97-105 | the rule `expression` enters itself first: on every input and from every position it comes to no outcome |
| ParseLeft.TokenGuarded | tests/test_parse.hpp:51-53 | recursion behind a regular expression that never matches the empty string has a certificate |
| ParseLeft.CertificateNotNeeded | include/xtd/parse_ast.hpp:256-288 | a choice that enters itself only after another alternative has failed has no certificate, and still can match |
| ParseText.ParseAccounts | include/xtd/parse_ast.hpp:137-444 | a terminal node's text is what follows the whitespace up to where the terminal comes to; any other node's text is the span it consumed, and its children are the parts in turn, the first alternative that matches, every match of a repeated body up to where it goes no further, or an optional body's match exactly if there is one |
| ParseText.OnlyTree | include/xtd/parse_ast.hpp:137-444 | there is only one tree for a rule that accounts for the input from a position on in that way |
| ParseText.TheTree | include/xtd/parse_ast.hpp:137-444 | parsing returns that tree, and fails exactly if there is none |
| ParseText.TreeWeaves | include/xtd/parse_ast.hpp:83-87 | consumed input is the terminals' texts in order, interleaved only with skipped whitespace |
| ParseText.TopAccounts | include/xtd/parse_ast.hpp:517-537 | a whole parse returns the one tree that accounts for the whole input, and fails exactly if there is none; the input is that tree's terminals with only whitespace between them |
| ParseCase.CaseBlind | include/xtd/parse_ast.hpp:51-59 | inputs equal up to letter case give the same success, cursor and errors, and trees whose texts are equal up to letter case, for regex-free grammars and letter-free whitespace |
| ParseCase.TopCaseBlind | include/xtd/parse_ast.hpp:517-537 | the same for whole parses |
| ParseErrors.FailureLogged | include/xtd/parse_ast.hpp:137-483 | a rule fails without leaving an error exactly if it is a choice with no alternatives, or a name for such a rule; no error lies before the place where the rule was tried |
| ParseErrors.TopLogged | include/xtd/parse_ast.hpp:517-537 | a whole parse reports errors exactly when it fails, if and only if the start rule is not a choice with no alternatives, or a name for one |
| ParseErrors.LogIsDerived | include/xtd/parse_ast.hpp:137-483 | the error log is the one read off the derivation: a terminal, choice, lookahead or first repetition that fails is logged where it was tried, a sequence where its failing part was tried, after the entries of what was tried below it |
| ParseErrors.TopReport | include/xtd/parse_ast.hpp:517-537 | a whole parse reports nothing when the start rule reaches the end of the input, the start rule at the place it came to when it stops short, and the derivation's log when it fails |
| ParseAst.Context.SkipWs | include/xtd/parse_ast.hpp:82-87 | the loop stops at the first character that is not whitespace |
| ParseAst.Context.MatchTerminal | include/xtd/parse_ast.hpp:366-483 | the terminal matchers find the specified end, character by character |
| ParseAst.Parse | include/xtd/parse_ast.hpp:137-483 | the node-building parser computes the specification: success, cursor, errors in order, and objects that spell out the tree |
| ParseAst.TryAll | include/xtd/parse_ast.hpp:227-244 | a sequence adopts its parts in order and logs the part that fails where it was tried |
| ParseAst.TryAny | include/xtd/parse_ast.hpp:274-288 | a choice takes the first alternative that matches and logs once when none does |
| ParseAst.TryMany | include/xtd/parse_ast.hpp:306-318 | a repetition keeps each match that consumes something and drops a last, empty one |
| ParseAst.ParseTop | include/xtd/parse_ast.hpp:517-537 | the top-level parser's answer, tree and errors are the specified ones |
| ParseRule.RuleNode.Parse | include/xtd/parse.hpp:154-643 | the rule-object parser computes the same specification |
| ParseRule.Context.SkipBlanks | include/xtd/parse.hpp:83-88 | its own whitespace loop stops at the first character that is not whitespace |
| ParseRule.RuleNode.ParseLiteral | include/xtd/parse.hpp:495-512 | its own literal matcher records the input matched, or logs the place where it was tried |
| ParseRule.RuleNode.ParseRange | include/xtd/parse.hpp:557-587 | its own range matcher accepts a character in the range, in either case when case is ignored |
| ParseRule.RuleNode.TryMany | include/xtd/parse.hpp:414-426 | its repetition loop likewise |
| ParseRule.ParseTop | include/xtd/parse.hpp:681-711 | its top-level parser likewise |
| ParseRule.ParseBoth | include/xtd/parse.hpp:154-643 | both libraries return the same success, the same tree with every rule and text, and the same errors in order |
| RpcCodec.RoundTrip | include/xtd/rpc.hpp:72-134 | decoding an encoded value followed by any tail gives the value and leaves exactly the tail |
| RpcCodec.ArgsRoundTrip | include/xtd/rpc.hpp:72-134 | the same for a list of arguments of any types |
| RpcCodec.PrefixFree | include/xtd/rpc.hpp:72-134 | for one list of types no encoding continues another |
| RpcCodec.Wire | include/xtd/rpc.hpp:72-121 | a plain value is its own bytes; a string or a vector is its length in eight bytes, lowest first, then its characters or items |
| RpcCodec.WireInOrder | include/xtd/rpc.hpp:72-121 | values follow each other in the order given |
| Rpc.Payload.Marshal | include/xtd/rpc.hpp:73-121 | appends exactly the value's encoding |
| Rpc.Payload.Unmarshal | include/xtd/rpc.hpp:79-134 | consumes exactly the value's encoding from the front |
| Rpc.Payload.UnmarshalMany | include/xtd/rpc.hpp:122-132 | the counting loop decodes a vector's items |
| Rpc.AnswerRead | include/xtd/rpc.hpp:354-372 | an exception's message is always read as sent; a result is read as sent if and only if the call's id is not 2^64 - 1, the id that marks exceptions |
| Rpc.Server.Invoke | include/xtd/rpc.hpp:416-464 | the first entry for the id handles the call; without one the answer is the fixed error message |
| Rpc.EachServesItsOwn | include/xtd/rpc.hpp:450-452 | every registered call is served by its own handler exactly when no two ids coincide |
| Rpc.NullTransport.Call | include/xtd/rpc.hpp:304-372 | a call through the transport runs the first handler for the id once, on the same arguments in the same order; an exception's message comes back as it is, a result if and only if the id is not 2^64 - 1; without a handler, or without a server, the caller gets the fixed message, character by character |
| SpinLock.StepKeeps | include/xtd/concurrent/recursive_spin_lock.hpp:32-52 | at any depth, every atomic step of any thread keeps the lock's invariant unless it takes the counter to zero with acquisitions left, and only the owner changes the counter |
| SpinLock.MutualExclusion | include/xtd/concurrent/recursive_spin_lock.hpp:32-52 | in every interleaving without such a step at most one thread is inside, the counter is the owner's depth modulo 2^32 between its operations, and the lock is free exactly when nobody is inside |
| SpinLock.FailedTry | include/xtd/concurrent/recursive_spin_lock.hpp:32-40 | a failed attempt met another owner |
| SpinLock.UnlockFrees | include/xtd/concurrent/recursive_spin_lock.hpp:48-52 | an unlock at depth d frees the lock exactly when d - 1 is a multiple of 2^32 |
| SpinLock.RightExactly | include/xtd/concurrent/recursive_spin_lock.hpp:32-52 | in every interleaving the lock is right after every step if and only if no unlock took away an acquisition at a depth d > 1 with d - 1 a multiple of 2^32 |
| SpinLock.RightUpTo32Bits | include/xtd/concurrent/recursive_spin_lock.hpp:19-52 | in every interleaving in which no thread holds the lock more than 4294967296 times the lock is right after every step |
| SpinLock.UnlockAfter | include/xtd/concurrent/recursive_spin_lock.hpp:48-52 | one thread alone: after n acquisitions one unlock frees the lock exactly when n - 1 is a multiple of 2^32 |
| SpinLock.WrapLetsIn | include/xtd/concurrent/recursive_spin_lock.hpp:32-52 | wherever a run first comes to such an unlock, it lets any thread at rest in beside the holder |
| SpinLock.WrapReached | include/xtd/concurrent/recursive_spin_lock.hpp:32-52 | a run that nests to 2^32 + 1 and unlocks comes to that point |
| SpinLock.RecursiveSpinLock.TryLock | include/xtd/concurrent/recursive_spin_lock.hpp:32-40 | run undisturbed, the method succeeds exactly on a free or own lock, leaves the caller as owner and one added to the 32-bit counter, as the thread's atomic steps do |
| SpinLock.RecursiveSpinLock.Unlock | include/xtd/concurrent/recursive_spin_lock.hpp:48-52 | run undisturbed, the method takes one from the 32-bit counter and frees the lock when that makes it zero, as the thread's atomic steps do |
| HashSlot.StepKeeps | include/xtd/concurrent/hash_map.hpp:331-364 | every load and exchange of any thread keeps the slot's invariant, which ties each call to its own steps, reused addresses included |
| HashSlot.EmptiedBetween | include/xtd/concurrent/hash_map.hpp:348-357 | a slot whose value changed has been empty in between |
| HashSlot.Linearizable | include/xtd/concurrent/hash_map.hpp:331-364 | in every interleaving, on every slot: successful inserts and removes strictly alternate; an insert succeeds by leaving the address its own call brought in an empty slot, a remove by emptying the slot of the address it loaded; every other result was true at some moment during its call; each step that ends a call returns one, and only a success changes the slot |
| HashSlot.InsertStays | include/xtd/concurrent/hash_map.hpp:331-357 | what a successful insert brought stays in the slot until a remove succeeds |
| HashSlot.OnlyItsSlot | include/xtd/concurrent/hash_map.hpp:331-364 | a step works on the slot that its key's low four bits name, and on no other |
| HashTrie.PathsDiffer | include/xtd/concurrent/hash_map.hpp:168-182 | different keys lead to different leaf slots |
| HashTrie.Widths | include/xtd/concurrent/hash_map.hpp:129-182 | sixteen levels distinguish all 64-bit keys, eight all 32-bit keys, lowest nibble first |
| HashTrie.Bucket.Insert | include/xtd/concurrent/hash_map.hpp:168-182 | inserts exactly when the key is absent, creating buckets on the way |
| HashTrie.Bucket.Exists | include/xtd/concurrent/hash_map.hpp:187-193 | answers whether the map has the key |
| HashTrie.Bucket.Remove | include/xtd/concurrent/hash_map.hpp:199-207 | removes exactly when the key is present |
| HashTrie.Bucket.Ref | include/xtd/concurrent/hash_map.hpp:215-225 | reading through the subscript adds a default only when the key is absent, and gives the key's value |
| HashTrie.Bucket.Assign | include/xtd/concurrent/hash_map.hpp:215-225 | storing through the subscript gives the key the new value and changes no other key, whether the key was there or not |

## Left out

- Memory mapping, file handles, page packing and crash consistency: the page file is a store of page objects in memory.
- Reopening a file that already has content: the model starts from a zeroed file.
- Iterators held across modifications, `find` as an iterator, `at` as an exception and the `operator[]` proxy of the tree: `FindValue` covers the lookup itself.
- Counters of the tree as 64-bit words: they count pages and records of one file and are unbounded here.
- The `magic` field of the header: the page kind stands for it.
- Minimum occupancy after erasure: the source reclaims only empty nodes, so the height bound is for insertions alone.
- Parent links of syntax-tree nodes, and the wording of parse errors.
- Finding a certificate: the caller of the parser brings it. Having one is enough for termination but not needed
  (`ParseLeft.CertificateNotNeeded`); a grammar without one may still parse some inputs, which `ParsePeg` describes and
  the parsers here do not take.
- `std::regex` itself: it is a parameter.
- RPC over TCP and pipes, threads and sockets, exceptions that are not `std::exception`, and by-reference out-parameters, which the client skips.
- HashTrie.Bucket.Ref: does not hand out the reference itself, because a reference kept across later calls could be
  written without the map's knowledge; a read and a store right after the subscript are `Ref` and `Assign`.
- Hash-map iteration, concurrent creation of inner buckets, `operator[]` and destruction under concurrency.
- The spin loop in `lock`: whether a waiting thread ever gets the lock depends on the scheduler; each of its attempts is a `try_lock`.
