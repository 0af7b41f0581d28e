# Band node: proofs about its set, ledger, storage and codecs

This project models the parts of the Band blockchain node that decide what is stored and what it is
worth, and proves what they keep over whole runs.  Verify it with `dafny verify dfyconfig.toml`.

**The persistent set** (`AvlTree`, `AvlSet`, `AvlBalance`, `AvlLinks`, `AvlSketch`, `AvlRuns`,
`AvlPath`, `AvlOrder`, `AvlWitness`, `NodeRecords`, `NonceSet`).  `NonceSet.Set` is the class of `src/store/set.h`: a root
nonce, a nonce counter, a size and a cache of node records over a store, changed in place.  A ghost tree
ties it to the recursive functions of `AvlTree`, and those to a mathematical set.  A parameter selects
what an erase does with an even right child: `AsWritten` is the code, `TieToSingle` the textbook rule.
Contents, order, heights and size hold for both.  Balance and parent links hold for the textbook rule.
For the code, the call that loses balance is the first erase that meets a lopsided tie, a condition on the
tree before the call; parent links hold at least as long, since a balanced tree splices leaves only.

**The token ledger** (`Ledger`, `LedgerLaws`, `MessageLaws`, `Solvency`, `Curves`, `CurveLaws`).  The handlers and
contract methods on a plain map of fields; what each message does to whom, conservation and solvency are proved over every run of messages whose
identifiers contain no '/'.  With a '/' both fail, because two fields can share a key.  It follows
from the definitions that a sale right after a buy undoes it (`Solvency.SellUndoesBuy`, `BuyUndoesSell`), and that
the two wiki messages succeed and leave the store (`MessageLaws.WikiMessages`).

**Storage and node** (`KeySpace`, `ValueCodec`, `TxCodec`, `Storage`, `Contracts`, `Manager`, `Chain`,
`ChainLaws`, `ChainRuns`, `NodeLaws`).  `Storage.Storage` holds two maps of serialized values, the one in use, the
cached contracts and their data wrappers; two ghost stores say what the maps mean.  The contract and
listener methods are proved to do to it what the plain ledger does, and each call of the manager is one
step of the state machine in `Chain`, over whose runs atomicity, replay safety, isolation of checks and
the ledger laws are proved.

**Codecs and framing** (`Buffers`, `CurveCodec`, `Framing`).  The varints (the unsigned LEB128 form of
section 7.6 of DWARF Version 5), the prefix code and the text of curves, and the length-prefixed frames
of a session, each with its loop and its meaning.

## Where the code differs from what one would expect

- `src/store/set.h:555` takes the double rotation also when the right child is even, and
  `src/store/set.h:510-515` copies a child without re-parenting its children.  Balance and parent links
  are then lost, and a later insert, even of a value that is present, can throw "Node not found"
  (`AvlWitness`).  Erase and contains never throw.
- `src/contract/account.h:40-42` says that a nonce must be one more than the old one; the code accepts
  every larger nonce, and the model follows the code.
- `Storage::create` puts the key before `init` runs, so a new token on a missing base leaves its mark in
  the apply store.  Such a token can be minted and transferred, never bought or sold, and never created.  No other
  transaction that throws changes the apply store (`ChainLaws.ResidueExactly`).
- The root token is its own base on the linear curve, so buying it costs as much of it as it gives: balances
  stay, and the supply grows by the amount (`NodeLaws.RootTrades`).
- A new token may name itself as its base, since its key is put before the base is looked up.
- A transaction whose handler throws does not use up its nonce; one whose message cannot be read does,
  as soon as something is flushed (`ChainLaws.NonceFates`).
- Contracts cached by a check are visible to a following apply, so a check inside a block leaks: it makes
  the node reject the very transaction that was checked.
- Identifiers may contain '/', which also separates the parts of a key.  Creating a token named
  `a/balances/x` puts its mark where the balance of `x` in `a` is stored, and it reads as 116 units.
- An insert that throws has already added its value, and counted it.
- Buying or selling a token without a curve copies a null equation (`src/util/equation.cc:34-37`), which
  C++ leaves undefined; the model lets the call fail.

## Model

| member | source | states |
|---|---|---|
| AvlSet.RotateRightKeeps | src/store/set.h:342-373 | a right rotation keeps values, nonces, order and parent links of the subtree |
| AvlSet.RotateLeftKeeps | src/store/set.h:376-407 | a left rotation does the same |
| AvlSet.InsertAdds | src/store/set.h:435-485 | a completed insert leaves a search tree with exact heights over unshared nonces whose values are the old ones and the new one, using the new nonce exactly when the value was absent; no balance is assumed |
| AvlSet.InterruptedAdds | src/store/set.h:435-485 | an insert that throws has added its value all the same: the root keeps its nonce, and the nodes form a search tree with the old values and the new one |
| AvlSet.MinIsLeast | src/store/set.h:331-339 | the minimum that a two-child erase promotes is the least value of the subtree |
| AvlSet.DeleteRemoves | src/store/set.h:489-561 | erase leaves a sound tree without the value and gives up one nonce exactly when the value was present; no balance is assumed |
| AvlSet.GreatestIsLargest | src/store/set.h:220-232 | the rightmost value is the largest |
| AvlBalance.InsertKeepsAvl | src/store/set.h:435-485 | from a balanced tree with exact heights insert never throws and returns such a tree of height h or h+1, through all four rotation cases |
| AvlBalance.DeleteKeepsAvl | src/store/set.h:489-561 | with an even right child taking the single rotation, erase keeps balance and exact heights, and height falls by at most one |
| AvlBalance.DeleteAsWrittenBalance | src/store/set.h:549-558 | as written, erase from a balanced tree keeps balance if and only if it meets no lopsided tie, and lowers the tree if and only if Lowers holds; both conditions read stored heights and values of the tree before the call |
| AvlBalance.BalancedIsShallow | src/store/set.h:342-407 | a balanced tree of height h holds at least Fib(h+2)-1 elements |
| AvlLinks.InsertKeepsLinks | src/store/set.h:426-485 | insert keeps every parent link right |
| AvlLinks.SpliceLinks | src/store/set.h:503-524 | replacing a node by its only child keeps parent links right if and only if that child is a leaf |
| AvlLinks.BalanceSplicesLeaf | src/store/set.h:503-533 | in a balanced tree every erase splices at most a leaf |
| AvlLinks.DeleteKeepsLinks | src/store/set.h:489-561 | an erase that splices a leaf keeps every parent link right, under either tie rule |
| AvlLinks.DeleteKeepsLinksIff | src/store/set.h:489-561 | whatever it splices, an erase keeps every parent link right if and only if the rotations on the way up re-parent each child of the spliced node; which those are is read off the tree before the call, from sketches two levels deep of the sides of its path |
| AvlSketch.LeftIsDrawn | src/store/set.h:489-561 | the upper two levels of the erased tree follow from those of the sides of the path in the tree before the call |
| AvlLinks.SpliceKeepsLinksIff | src/store/set.h:503-558 | when the root is spliced: if and only if the only child is a leaf, or has one side that is empty and another higher than one, which makes the rotation at the root repair the links |
| AvlPath.InsertFollowsPath | src/store/set.h:435-485 | insert throws "Node not found" if and only if the heights along the search path of the tree before the call say so, and otherwise leaves the path they say; the heights beside the path and, where a sibling is lifted, those below it are all that is read |
| AvlRuns.FindsIffMember | src/store/set.h:199-217 | the search path ends at a node exactly for members |
| AvlRuns.StepRefines | src/store/set.h:182-196 | one insert or erase acts on the represented mathematical set and its answer says whether the set changed |
| AvlRuns.RunRefinesSet | src/store/set.h:182-196 | over every run from empty that does not throw, under either tie rule, the values, the size and all answers are those of a mathematical set |
| AvlRuns.StepKeepsIntact | src/store/set.h:435-561 | from a balanced, rightly linked tree no call throws, and the tree stays so unless the call is an as-written erase that meets a lopsided tie (if and only if) |
| AvlRuns.RunStaysIntact | src/store/set.h:435-561 | with the single-rotation tie no run from empty ever throws, and balance and links hold after every run |
| AvlRuns.RunAsWrittenStaysIntact | src/store/set.h:489-561 | as written, balance and links hold after every run that has met no lopsided tie |
| AvlWitness.EraseLosesBalanceAndLinks | src/store/set.h:510-558 | the run that inserts 20, 10, 40, 5, 30, 50, 25, 60 and erases 5 leaves node 40 with heights 0 and 2; erasing 40 next leaves the parent link of 60 on a nonce outside the tree |
| AvlWitness.InsertThrows | src/store/set.h:376-407 | a listed run that completes with 90 in the set, after which inserting 90 throws "Node not found" |
| AvlOrder.OrderIncreases | src/store/set.h:59-135 | the in-order traversal is strictly increasing |
| AvlOrder.OrderCovers | src/store/set.h:59-135 | the traversal visits every nonce once |
| AvlOrder.Climb | src/store/set.h:65-83 | with right parent links, one climb leads to the node that has this subtree on its left or right |
| AvlOrder.NextPrevUndo | src/store/set.h:59-135 | away from the ends ++ and -- undo each other |
| AvlOrder.WalkFrom | src/store/set.h:60-96 | ++ repeated from any place walks the rest of the traversal and then reaches nonce 0 |
| AvlOrder.WalkBackFrom | src/store/set.h:99-135 | -- repeated from any place walks the start of the traversal backwards and then reaches nonce 0 |
| NodeRecords.StaleClimbGoesBack | src/store/set.h:65-83 | after a child with a child of its own was copied over its parent, ++ from the last grandchild climbs through the erased record to a node with a smaller value |
| NodeRecords.RightRotationWrites | src/store/set.h:342-373 | the three record writes of a right rotation, with the heights the code computes, are the rotation of the tree |
| NodeRecords.LeftRotationWrites | src/store/set.h:376-407 | the same for a left rotation |
| NodeRecords.SpellsSpliced | src/store/set.h:503-524 | copying the only child over its parent and marking the child erased spells the spliced tree |
| NodeRecords.OutcomeOfAdd | src/store/set.h:182-187 | the records after an insert are those of one step of a run: contents, nonce counter, size, erased leftovers |
| NodeRecords.OutcomeOfThrow | src/store/set.h:435-485 | the records after an insert that throws spell a search tree with the value in it under the same root, and the size counts its values |
| NodeRecords.OutcomeOfDel | src/store/set.h:190-196 | the records after an erase are those of one step of a run |
| NodeRecords.SavedIsTree | src/store/set.h:162-179 | with sound marks, writing the cache back leaves exactly the records of the tree |
| NonceSet.Set.RightRotate | src/store/set.h:342-373 | the method rotates the records, or throws when the child is missing and writes nothing |
| NonceSet.Set.LeftRotate | src/store/set.h:376-407 | the mirror image |
| NonceSet.Set.GetBalance | src/store/set.h:411-423 | the side that is at least as high and by how much; true and 0 at nonce 0 |
| NonceSet.Set.UpdateParent | src/store/set.h:426-432 | rewrites the parent of an existing child and sets no mark |
| NonceSet.Set.NewNode | src/store/set.h:314-320 | a fresh nonce, a marked record, one more element |
| NonceSet.Set.InsertNode | src/store/set.h:435-485 | the recursive method on records gives the tree of TreeInsert, or throws exactly where that fails |
| NonceSet.Set.MinValueNode | src/store/set.h:331-339 | the nonce of the least value |
| NonceSet.Set.DeleteNode | src/store/set.h:489-561 | the recursive method on records gives the tree of TreeDelete; marks stay sound although updateParent sets none |
| NonceSet.Set.Insert | src/store/set.h:182-187 | one step of a run on the persistent set, with its answer; marks stay sound while links are right; after a throw the root nonce is the old one and the records spell a search tree with the value in it and setSize values |
| NonceSet.Set.Erase | src/store/set.h:190-196 | one step of a run, never throwing |
| NonceSet.Set.Contains | src/store/set.h:199-217 | membership in the represented set, looking at no more nodes than the height |
| NonceSet.Set.MaxValue | src/store/set.h:220-232 | the greatest value, or the default on an empty set, looking at no more nodes than the height |
| NonceSet.Set.Find | src/store/set.h:242-260 | an iterator on the value, or on nonce 0 exactly when it is absent, within the height |
| NonceSet.Set.Begin | src/store/set.h:263-274 | the first nonce of the traversal; throws exactly on an empty set |
| NonceSet.Set.Last | src/store/set.h:277-288 | the last nonce of the traversal; throws exactly on an empty set |
| NonceSet.Set.Flush | src/store/set.h:162-179 | the destructor while flushing: with sound marks the store holds exactly the tree |
| NonceSet.Iterator.Increment | src/store/set.h:60-96 | moves to the next nonce of the traversal, or to 0 after the last; every climb and descent ends; right parent links are needed only where it climbs |
| NonceSet.Iterator.Decrement | src/store/set.h:99-135 | moves to the previous nonce, or to 0 before the first; right parent links are needed only where it climbs |
| NonceSet.Iterator.Value | src/store/set.h:52-57 | the value at that place of the traversal, whatever the parent links |
| NonceSet.Reload | src/store/set.h:145-179 | destroying a set while flushing and constructing one on the same key gives the same tree, counter, root and size |
| Buffers.DecodeMeans | src/util/buffer.h:185-202 | a terminated varint decodes to its base-128 value modulo the width exactly when every shift on the way is one that C++ defines; at 256 bits to the value, or to an overflow exactly when it does not fit |
| Buffers.EndlessFails | src/util/buffer.h:185-202 | bytes without a final byte never decode |
| Buffers.UndefinedExactly | src/util/buffer.h:185-202 | exactly which varints shift in a way that C++ leaves undefined, width by width |
| Buffers.VarintDigits | src/util/buffer.h:170-183 | byte i of a varint holds digit i of the value to base 128, all but the last with the continuation bit, and no byte is superfluous |
| Buffers.VarintRoundTrip | src/util/buffer.h:170-202 | at every width, decoding what was encoded gives the value back and consumes exactly its bytes, whatever follows; no shift is lost |
| Buffers.VarintIsShortest | src/util/buffer.h:170-183 | no accepted encoding of a value is shorter than the written one |
| Buffers.Buffer.PushVarint | src/util/buffer.h:170-183 | the encoding loop appends the varint |
| Buffers.Buffer.PopVarint | src/util/buffer.h:185-202 | the decoding loop returns the scan and consumes only on success |
| Buffers.Buffer.Take | src/util/buffer.h:80-87 | reads a fixed number of bytes, or fails and consumes nothing |
| Curves.Pow | src/util/equation.cc:22-29 | l^r exactly when it fits 256 bits and an overflow otherwise; for l of at least 2 at most 256 multiplications |
| Curves.Evaluate | src/util/equation.cc:159-204 | evaluation with throwing 256-bit arithmetic agrees with the meaning of the expression |
| CurveLaws.AddLaws | src/util/equation.cc:159-162 | a sum is symmetric, has 0 as neutral element, grows by one with its right side, and throws exactly when it does not fit 256 bits |
| CurveLaws.SubLaws | src/util/equation.cc:164-167 | a difference undoes a sum, and throws exactly when the right side is larger |
| CurveLaws.MulLaws | src/util/equation.cc:169-172 | a product with 0 is 0, and one factor more adds the left side once more, overflows included |
| CurveLaws.MulDistributes | src/util/equation.cc:169-172 | a product of a sum is the sum of the products wherever the sum is defined |
| CurveLaws.DivModLaws | src/util/equation.cc:174-182 | quotient and remainder are the one pair that makes up the dividend again with a remainder below the divisor; both throw exactly for a divisor of 0 |
| CurveLaws.ExpLaws | src/util/equation.cc:22-29 | a power to 0 is 1, and one more in the exponent multiplies once more, overflows included |
| CurveLaws.ExpAdds | src/util/equation.cc:184-189 | a power to a sum is the product of the powers wherever the sum is defined |
| Curves.PolynomialRises | src/util/equation.cc:159-204 | sums, products, constant powers and constant quotients never fall and are defined below every point where they are defined |
| CurveCodec.ParseDump | src/util/equation.cc:73-147 | parsing the dump of any expression followed by any suffix returns the expression and leaves the suffix |
| CurveCodec.ParsedIsDumpable | src/util/equation.cc:88-127 | whatever was parsed has word-sized constants, a dump no longer than the bytes consumed, and leaves a true suffix |
| CurveCodec.ParseIsFixpoint | src/util/equation.cc:88-147 | a successful parse is a fixed point of dump-then-parse, also for padded varints |
| CurveCodec.DumpsArePrefixFree | src/util/equation.cc:141-147 | no dump is the beginning of another |
| CurveCodec.OpcodesMean | src/util/equation.h:29-39 | what each of the opcodes 1 to 8 makes of the bytes that follow it |
| CurveCodec.OtherOpcodesFail | src/util/equation.cc:91-111 | no other opcode parses, nor do no bytes at all |
| CurveCodec.DumpTo | src/util/equation.cc:141-147 | the recursive method appends the dump |
| CurveCodec.ParseFrom | src/util/equation.cc:88-127 | the recursive method parses from the buffer, ends on every input, and leaves what follows |
| CurveCodec.ReadsOneWay | src/util/equation.cc:135-157 | texts followed by anything that is no digit are read in one way only |
| CurveCodec.TextsAre | src/util/equation.cc:135-157 | the text of each operation with its sign between the texts of its sides, and a constant as the decimal number without leading zeros |
| CurveCodec.TextInjective | src/util/equation.cc:135-157 | two expressions with the same text are the same tree |
| Framing.FramesOfConcat | src/net/tmapp.cc:26-47 | receiving b after a is receiving a followed by b, for every stream |
| Framing.ChunkingIsInvisible | src/net/session.cc:31-38 | two ways of cutting one stream deliver the same frames in the same order and hold the same tail |
| Framing.LookAheadInverts | src/net/tmapp.cc:219-224 | read_ahead waits for the whole payload and then announces exactly the written prefix and length, for lengths whose double is below 2^31 |
| Framing.FrameIs | src/net/tmapp.cc:219-224 | a written response is a varint of twice its length and then the response |
| Framing.BrokenExactly | src/net/tmapp.cc:26-47 | a complete prefix is broken exactly when it has more than five bytes or spells more than 31 bits |
| Framing.FramesOfWritten | src/net/tmapp.cc:26-47 | a reader of the written responses gets exactly those responses and holds nothing |
| Framing.Session.ReadAhead | src/net/tmapp.cc:26-47 | the loop decides as specified on every buffer, up to where a shift is undefined, and consumes the prefix only when the payload is there |
| Framing.Session.Process | src/net/tmapp.cc:167-225 | at most one frame is taken and handed over; it is answered, or the application throws on it and nothing is written |
| Framing.Session.ProcessRead | src/net/session.cc:31-38 | for every chunk: the loop waits for more exactly when no frame of everything received throws and no prefix is broken, and then all frames were delivered in order and the incomplete tail is held; otherwise exactly the frames up to the first that throws, or before the broken prefix, were delivered |
| Framing.Session.ProcessWrite | src/net/session.cc:40-44 | sent bytes leave the front of the pending output |
| KeySpace.KeysDistinct | src/store/map.h:51-63 | with identifiers free of slashes no two fields share a key |
| KeySpace.AccountKeysAre | src/contract/account.h:48-51 | the key of an account, and exactly which field an account of any name shares it with |
| ValueCodec.IdentRoundTrip | src/util/string.h:53-62 | a valid identifier is read back as itself from any continuation |
| ValueCodec.ReadsSpelling | src/util/string.cc:35-54 | reading the identifier spelled by any bytes: exactly up to 20 printable characters are accepted, each capital stands for its small letter and every other character for itself, and what follows is left |
| ValueCodec.CaseIsIgnored | src/util/string.cc:51-53 | two accepted spellings give the same name if and only if they agree up to capitals |
| ValueCodec.ReadsStored | src/store/data.h:78-99 | what stored bytes say field by field: varints, 32 key bytes, the prefix code of a curve, an identifier |
| ValueCodec.ValueRoundTrip | src/store/data.h:58-90 | what a data wrapper stores it reads back |
| KeySpace.MarkTakesKeyIff | src/store/storage.h:69-70 | exactly which field loses its key to the mark of a new token, for every name |
| ValueCodec.SlashMintsUnits | src/store/storage.h:66-73 | the input on which the ledger laws fail: creating a token named like the balance of a holder puts 116 units there |
| TxCodec.TxRoundTrip | src/listener/manager.cc:29-46 | a written transaction is read as exactly its sender, nonce and message |
| TxCodec.MsgRoundTrip | src/util/msg.h:98-143 | every message, the two of the wiki included, is read back from its fields in order |
| TxCodec.ReadsType | src/listener/manager.cc:29-46 | for every type number: the sender, 64 signature bytes, the nonce and the type come first, in that order; types from 8 on are refused |
| TxCodec.ReadsNoHeader | src/listener/manager.cc:29-46 | a transaction that ends within the signature or before the nonce has no header |
| TxCodec.ReadsCreateAccount | src/util/msg.h:94-100 | type 0: 32 key bytes and the name of the new account; whatever follows is ignored |
| TxCodec.ReadsCreateToken | src/util/msg.h:102-109 | type 1: the base, the new token and its curve |
| TxCodec.ReadsMintBuySell | src/util/msg.h:111-144 | types 2, 4 and 5 mint, buy and sell: the token and the amount |
| TxCodec.ReadsTransfer | src/util/msg.h:119-127 | type 3: the token, the destination and the amount |
| TxCodec.ReadsEdges | src/util/msg.h:146-163 | types 6 and 7: subject, predicate, object and label of an edge to add or remove |
| TxCodec.ReadsNodeSpelling | src/util/string.cc:35-54 | a wiki name: exactly up to 128 printable characters are accepted, each standing for itself |
| MessageLaws.MintMessage | src/listener/primary.cc:88-95 | a mint succeeds exactly when the token exists and both sums fit, and then adds the amount to its sender and to the supply, and to nothing else |
| MessageLaws.TransferMessage | src/listener/primary.cc:97-104 | a transfer succeeds exactly when the token exists, its sender holds the amount and the sum of the destination fits; it debits the sender and credits the destination, also when they are the same |
| MessageLaws.BuyMessage | src/listener/primary.cc:106-116 | on every curve: exactly when a buy succeeds; its sender pays the rise of the curve in the base, gets the amount, the supply grows, and nothing else changes |
| MessageLaws.SellMessage | src/listener/primary.cc:118-128 | the same for a sale, which pays the fall of the curve |
| MessageLaws.CreateAccountMessage | src/listener/primary.cc:72-78 | succeeds exactly for a new name, and stores the mark, the given key and nonce 0, and nothing else |
| MessageLaws.CreateTokenMessage | src/listener/primary.cc:80-86 | succeeds exactly for a new name on an existing base or on itself, and stores the given base and curve and no supply; nobody holds any |
| MessageLaws.OthersOnlyGive | src/listener/primary.cc:72-128 | a message of somebody else changes a balance by exactly what it transfers there |
| MessageLaws.RunOnlyGives | src/listener/primary.cc:72-128 | over any run of messages in which a holder sends none, the balance grows by exactly what the holder was given, and so never falls |
| MessageLaws.LastingStays | src/listener/primary.cc:72-128 | no message, failed ones included, changes or removes a mark, a key, a curve or a base that exists |
| LedgerLaws.OutcomeConserves | src/listener/primary.cc:72-128 | every message with slash-free identifiers, failed ones included, keeps supply = balances + locked base for every token |
| LedgerLaws.RunConserves | src/contract/token.cc:20-84 | conservation over every run of messages with slash-free identifiers: create, mint, transfer, buy and sell, with tokens that are their own base included |
| Solvency.CanAlwaysSell | src/contract/token.cc:68-84 | on sound curves any holder can sell any amount up to the balance: no underflow, no overflow |
| Solvency.CanBuyIff | src/contract/token.cc:50-66 | on sound curves a buy succeeds if and only if the new supply fits, has a price, and the buyer can pay |
| Solvency.RunStaysSolvent | src/contract/token.cc:35-84 | the invariant behind both holds over every disciplined run: slash-free identifiers, only the root minted, every other token on a sound curve |
| Solvency.LockedIsPathless | src/contract/token.cc:50-84 | after every disciplined run the base locked in a token is C(supply) - C(0), whatever the path |
| Solvency.RunCanAlwaysSell | src/contract/token.cc:68-84 | after every disciplined run every holder can sell back any part |
| Solvency.SaleIffRises | src/contract/token.cc:68-84 | the rising condition is exact where minting is allowed: with y minted on any curve, selling y - x succeeds if and only if the curve rises from x to y |
| Storage.FlushInAnyOrder | src/store/data.h:50-69 | in whatever order the cache is destroyed, the store becomes the one that received the writes directly |
| Storage.Storage.Get | src/store/storage_map.cc:20-29 | the map in use, or a throw exactly when none is |
| Storage.Storage.ReadCell | src/store/data.h:78-99 | a read returns the last write of the transaction, or else the stored value, or else the default; an erased field throws; the view does not change |
| Storage.Storage.WriteCell | src/store/data.h:115-119 | a write changes the view at one field and no stored value |
| Storage.Storage.EraseCell | src/store/data.h:123-127 | an erase removes one field from the view |
| Storage.Storage.GetContract | src/store/storage.h:96-116 | found in the cache or the store, exactly when the mark is visible |
| Storage.Storage.Create | src/store/storage.h:57-74 | fails exactly when the mark exists; otherwise the mark is in the store at once |
| Storage.Storage.Destroy | src/store/data.h:50-69 | puts or deletes only while flushing, and then a map is always in use |
| Storage.Storage.Reset | src/store/storage.cc:22-25 | drops everything cached and stores nothing |
| Storage.Storage.Flush | src/store/storage.cc:27-38 | the store in use becomes the view, the check store a copy of the apply store, and no store is in use |
| Contracts.Account.SetNonce | src/contract/account.cc:28-34 | accepts exactly the larger nonces |
| Contracts.Token.Init | src/contract/token.cc:20-28 | succeeds exactly when the base is visible, the token itself included |
| Contracts.Token.Mint | src/contract/token.cc:35-39 | does to the view what the ledger mint does, or fails exactly when that fails |
| Contracts.Token.Transfer | src/contract/token.cc:41-48 | the same for a transfer |
| Contracts.Token.Buy | src/contract/token.cc:50-66 | the same for a buy, with the amount paid |
| Contracts.Token.Sell | src/contract/token.cc:68-84 | the same for a sale, with the amount received |
| Manager.PrimaryListener.ValidateTransaction | src/listener/primary.cc:54-70 | one validation step of the node in either mode |
| Manager.PrimaryListener.Handle | src/listener/primary.cc:72-128 | the handlers do to the view what the plain handlers do; a failed one leaves at most the mark of a failed create |
| Manager.PrimaryListener.Process | src/listener/primary.h:62-76 | one transaction scope: flush on success, reset either way |
| Manager.PrimaryListener.Init | src/listener/primary.cc:34-42 | the genesis state |
| Manager.ListenerManager.InitChain | src/listener/manager.cc:77-89 | the genesis of account "BandGod" and token "Band", which identifiers spell in small letters |
| Manager.ListenerManager.CheckTransaction | src/listener/manager.cc:104-112 | one check step from raw bytes, of which only the header is read |
| Manager.ListenerManager.ApplyTransaction | src/listener/manager.cc:114-145 | one apply step from raw bytes: header and type are read before the nonce is set, the message after it |
| Manager.ListenerManager.BeginBlock | src/listener/manager.cc:91-102 | the begin step |
| Manager.ListenerManager.CommitBlock | src/listener/manager.cc:156-163 | the commit step |
| NodeLaws.GenesisIs | src/listener/primary.cc:34-42 | after init the store holds one account with the given key and nonce 0, a root token that is its own base, without supply and priced at one for one, and no other field |
| NodeLaws.RootTrades | src/util/equation.cc:68-71 | in every run a buy of v root tokens succeeds exactly when the buyer holds v of them and the supply fits; it leaves every balance and raises the supply by v; a sale lowers it |
| NodeLaws.NoTransactionNoLoss | src/listener/manager.cc:91-163 | in every run a balance never falls while no transaction of its holder is applied |
| NodeLaws.LastingForever | src/listener/manager.cc:91-163 | in every run the key of an account and the curve and base of a token stay what they were |
| NodeLaws.CheckOfBytes | src/listener/manager.cc:104-112 | checking bytes accepts exactly a sender with an account and a larger nonce, whatever follows the nonce; it makes that nonce pending and changes no store |
| NodeLaws.TransferOfBytes | src/listener/manager.cc:114-145 | applying the bytes of a transfer, from the first byte to the stored balances: exactly when it takes effect, what moves then, and that nothing changes otherwise |
| ChainLaws.RunSettled | src/listener/manager.cc:91-163 | in every run nothing is pending while no store is in use, only larger nonces of existing accounts are ever pending, and the stores differ only by marks of failed creates |
| ChainLaws.ApplyIsAtomic | src/listener/primary.h:62-76 | a transaction is one step on a plain store, nonce and message together, or leaves the apply store alone but for the residue of a failed create |
| ChainLaws.NonceGrows | src/contract/account.cc:28-34 | no step lowers a stored nonce, and one that takes effect raises its sender to its own |
| ChainLaws.RunNeverReplays | src/listener/manager.cc:104-145 | in every run, checks and failures included, each user's effective nonces strictly increase |
| ChainRuns.ChecksAreIsolated | src/listener/manager.cc:104-112 | if checks fall only outside blocks, the apply store and the transactions that take effect are those of the run without the checks |
| ChainRuns.CheckInBlockLeaks | src/store/storage.cc:22-38 | a check inside a block leaks: the node rejects the checked user up to the checked nonce, and the next transaction of another user that takes effect stores that nonce |
| ChainRuns.OwnCheckRejects | src/listener/manager.cc:104-145 | a run in which it does: BeginBlock, check, apply of the first transaction has no effect, and without the check it has one |
| ChainRuns.PartsIff | src/listener/manager.cc:104-163 | two nodes that differ in pending nonces only get different apply stores from an event, or disagree on whether it takes effect, if and only if Parts holds of the nodes before it |
| ChainRuns.CheckChangesIff | src/listener/manager.cc:104-163 | exactly when a check anywhere in a run changes what is applied, or what takes effect, later in that run |
| ChainRuns.ChainIsLedger | src/listener/primary.cc:54-128 | however blocks, checks and failures interleave, the apply store is the plain ledger of the handled messages, nonces apart; identifiers are slash-free |
| ChainRuns.ChainConserves | src/contract/token.cc:20-84 | conservation on a running node, identifiers being slash-free |
| ChainRuns.ChainCanAlwaysSell | src/contract/token.cc:68-84 | solvency on a running node, identifiers being slash-free |

## Left out

- Keys: storage, contracts, manager, ledger and chain laws alike are about identifiers without '/'.  With a '/' keys alias, exactly where `KeySpace.MarkTakesKeyIff` says for the mark of a token, and the laws fail (`ValueCodec.SlashMintsUnits`); what the node does after such a message is not modelled.
- LedgerLaws.RunConserves: for slash-free identifiers only, for that reason.
- Solvency.RunCanAlwaysSell: for slash-free identifiers only, for that reason.
- ChainRuns.ChainIsLedger: for slash-free identifiers only, for that reason.
- NonceSet.Iterator.Increment: a step that climbs needs right parent links; with a stale link the climb can go back to a smaller value (`NodeRecords.StaleClimbGoesBack`).
- NonceSet.Iterator.Decrement: the same, in the other direction.
- NonceSet.Set.Insert: requires fewer than 2^64 nonces used, the width of the counter.
- Element type of the set: values are integers with their order; `T{}` is 0.
- Records of the set are stored as records, not as bytes under `baseKey + id`.
- Buffers.Buffer.PopVarint: a shift that C++ does not define is reported as undefined, and callers treat it as a failure; nothing is claimed about what a compiled program does there.
- Framing.Session.ReadAhead: a prefix that leaves 31 bits is reported as broken, because C++ leaves the shift undefined; nothing is claimed about what a compiled program does from there.
- Framing.Session.Process: the application is a function of the frames delivered before and of this one, which answers or throws; the content of requests and responses is not modelled.
- Framing.Session.ProcessRead: what a session does after a throw has left it is not modelled.
- Failing 256-bit arithmetic, parse errors, `Error` and `Failure` are all one failure; which exceptions the network layer catches is not modelled, and a message type out of range is a failed transaction.
- Storage.Storage.ReadCell: the data wrappers of all cached contracts form one map from fields to cells, which also stands for the memo tables of `DataMap`; ownership and destruction of C++ objects are not modelled beyond the order of destruction.
- Type confusion of cached contracts (`Contract::as`) cannot arise, since the key prefix fixes the type.
- Chain: signatures are not checked, as in the code, where the check is commented out; hashes, timestamps and block heights carry no claim.
- Manager.ListenerManager.ApplyTransaction: the secondary listeners, the historical mode without a primary and the serialized response are left out.
- TxCodec.MsgRoundTrip: transactions are read by functions on byte sequences, not through the consuming methods of the buffer, so what a failed read has consumed is not modelled.
- Manager.ListenerManager.InitChain: the verify key of the genesis account is a parameter, because the code leaves it unset.
- Bool, pair and vector codecs, hex printing, JSON interfaces: small members beside the ones above.
- Stake, voting, registry, governance and wiki contracts: commented out in the repository.
- RocksDB storage, the graph set, the sorted vector, sockets, protobuf, HTTP and SQL clients, logging, command line.
