# Verified model of the Ejscript module tools, documentation cracker and configuration blender

This project models the parts of Ejscript and its build support that do the hardest work on data, and proves what
they promise. Every theorem is stated for all inputs, all runs or all reachable states.

* **The disassembler** (`Codec.dfy`, `Listing.dfy`, `RoundTrip.dfy`). The listing tool decodes variable-length byte
  code with a table that says what operands each opcode takes. The decoder is modelled as it runs, one shared program
  counter moved by every getter, over *any* operand table and *any* bytes. The code generator's encoders are modelled
  beside it, and the two are tied by a round trip. The number codec underneath is modelled with the 32-bit shift that
  the decoder really performs.
* **The graph walks** (`SimplePaths.dfy`, `SlotWalk.dfy`). The slot listing and the slot header generator recurse over
  cyclic object graphs with a VISITED bit that is set on the way in and cleared on the way out. Such a walk follows
  every simple path; the proofs say exactly that, and that nothing reachable is missed.
* **The documentation cracker** (`DocCracker.dfy`, `DocFormat.dfy`, `DocText.dfy`). `crackDoc` is a depth-first search
  over `@duplicate` directives, which may form cycles, with a mark that is never cleared; copied lists share their
  key/value pairs, whose values are formatted in place. The proofs say which docs a call cracks, when a doc copies from
  one that is not complete, how often a shared value is formatted, and that a run without a cycle depends only on which
  docs it cracks. `prepText` is modelled on its buffer.
* **The blender** (`BlendTree.dfy`, `BlendAlgebra.dfy`, `BlendOperators.dfy`, `BlendHeap.dfy`, `BlendSteps.dfy`,
  `BlendLoop.dfy`, `BlendProps.dfy`, `BlendCollision.dfy`, `Blender.dfy`). `blend` merges one JavaScript object into
  another in place, with operator prefixes and an inherited operator, and sometimes stores parts of its source uncloned.
  It is modelled on an explicit heap and proved to refine a merge of trees; what each prefix does and the algebra of
  layered configuration files are proved of that merge, and the sharing with the source is followed through the loop.
* **Two TLS cores** (`Alpn.dfy`, `SecureWrite.dfy`): the protocol list encoder, and the partial-write loop over every
  schedule of answers from the TLS library.

`Sequences.dfy` holds the facts about sequences that several modules share. `dfyconfig.toml` names all files, so
`dafny verify dfyconfig.toml` checks the project.

## Where the code and its documentation differ

The model follows the code.

* A number larger than 32 bits is written in full but read back through a 32-bit shift: `Codec.RoundTripExactly` gives
  the exact range that survives and `Codec.LostNumber` the smallest number that does not. `src/ejs.h` describes
  numbers of one to three bytes; the encoder writes up to ten (`Codec.EncodeNumLength`).
* A doc whose `@duplicate` directives lead to a cycle gives some doc on the way an incomplete copy:
  `DocCracker.LateExactly` gives the exact condition and `DocCracker.MutualDuplicatesLate` a pair of docs. Each
  directive's copy replaces what the directive before it copied, so a doc inherits from its last directive only.
* Copying a list copies pointers to its pairs, and completing a doc rewrites the values of all pairs it lists. So
  cracking a doc changes what docs cracked before it show: `DocCracker.ValueExactly` says how often a value is formatted,
  `DocCracker.ValuesAgreeExactly` when two runs show the same, and `DocCracker.PriceBecomesLink` gives a doc whose
  parameter text turns from a price into a link because another doc duplicates it.
* Array `+` tests whether the destination contains the whole source array, and array `-` calls `slice`, which removes
  nothing. So appending never drops duplicates and array subtraction leaves the array alone.
* `blend` leaves its source unchanged whenever the source's names differ once their prefixes are stripped
  (`Blender.SourceUnchanged`). If two names strip alike it can change: `BlendCollision.CollisionExactly` says exactly when
  one such pair changes the source, for a destination with a primitive under that name, and
  `Blender.JsHeap.CollidingNames` is a call that does.
* A protocol name of more than 255 bytes wraps its length byte, and an empty name ends the list early:
  `Alpn.SentExactly` gives the exact condition, `Alpn.NothingSent` and `Alpn.LongNameWraps` names that fail.
* A TLS write that fails after the library has taken some bytes reports only the error: `SecureWrite.CountTold` says for
  which answers of the library the returned count is right, and `SecureWrite.UntoldBytes` shows a byte that no count
  tells of.

## Model

| member | source | states |
|---|---|---|
| Codec.EncodeNumLength | src/vm/ejsModule.c:590-615 | Every 64-bit number takes at most ten bytes, and at most four if and only if its magnitude is at most EJS_ENCODE_MAX_WORD. |
| Codec.WriteNum | src/vm/ejsModule.c:590-615 | The pointer-moving writer leaves exactly the encoding in the buffer, returns its length and changes no other byte. |
| Codec.DecodedBound | src/vm/ejsModule.c:540-567 | Whatever the bytes, a decoded magnitude is below 2^32. |
| Codec.DecodeEncodedNum | src/vm/ejsModule.c:540-615 | Wherever the encoding of a number below 2^32 in magnitude stands in memory, decoding gives that number and the position after it. |
| Codec.RoundTripExactly | src/vm/ejsModule.c:540-615 | Decoding an encoded number gives it back if and only if its magnitude is below 2^32. |
| Codec.LostNumber | src/vm/ejsModule.c:540-615 | 2^32 is written in five bytes and reads back as 0. |
| Codec.DecodeEncodedInt32 | src/vm/ejsModule.c:528-537 | A padded four-byte branch offset reads back as itself and the counter moves by four. |
| Codec.ReadBack | src/cmd/listing.c:501-628 | Any sequence of readers, each of which reads back its own part, reads back the concatenation of the parts and ends at its end. |
| Listing.EjsMod.constructor | src/cmd/listing.c:635-668 | The decoder starts at the first byte of a function's code, over any bytes. |
| Listing.EjsMod.GetByte | src/cmd/listing.c:979-985 | Reads one byte and moves the counter past it. |
| Listing.EjsMod.GetNum | src/cmd/listing.c:1025-1043 | Reads one number and moves the counter past it. |
| Listing.EjsMod.GetInt32 | src/cmd/listing.c:988-1002 | Reads a branch offset and moves the counter by four. |
| Listing.EjsMod.GetMany | src/cmd/listing.c:534-597 | Reads a counted list of attributes or offsets, in order; a negative count is none. |
| Listing.EjsMod.GetGlobal | src/cmd/listing.c:1062-1117 | Reads a reference by its two kind bits: none, a slot, or a name and a namespace; the namespace is not read after a missing name. |
| Listing.EjsMod.GetTable | src/cmd/listing.c:569-597 | Reads a default-argument table: a count byte and that many offsets. |
| Listing.EjsMod.GetObject | src/cmd/listing.c:534-547 | Reads an object literal: a count and that many attributes; `ival` then holds the count. |
| Listing.EjsMod.GetOperand | src/cmd/listing.c:501-613 | Reads any kind of operand, and leaves in `ival` the value that the stack effect uses. |
| Listing.EjsMod.DecodeOperands | src/cmd/listing.c:478-628 | For any table row, the operand loop yields the operands, the branch addresses and the stack effect that the closed formulas give: counts weighted by 1, 2 or 3, or for a POPN row minus its first operand. |
| Listing.EjsMod.ListOne | src/cmd/listing.c:670-729 | One turn of the instruction loop: the line, the next counter and the next depth, or the way the listing stops. |
| Listing.EjsMod.Interp | src/cmd/listing.c:635-731 | On any bytes and any table the instruction loop terminates and prints exactly the disassembly that the recursive definition gives. |
| RoundTrip.ReadEncodedGlobal | src/compiler/ecModuleWrite.c:784-830 | A slot, name or no-reference global reads back as itself. |
| RoundTrip.ReadEncodedTable | src/cmd/listing.c:569-597 | A default-argument table of either width reads back entry by entry. |
| RoundTrip.ReadEncodedObject | src/cmd/listing.c:534-547 | An object literal reads back with its count and every attribute. |
| RoundTrip.ReadEncodedOperand | src/cmd/listing.c:501-613 | Every operand that a code generator can write reads back as itself, for every kind. |
| RoundTrip.ReadEncodedOperands | src/cmd/listing.c:501-628 | So does the whole operand list of an instruction, whatever its table row. |
| RoundTrip.RunStartExactly | src/cmd/listing.c:711-715 | Depths are summed from the last RETURN or RETURN_VALUE: the start of the run is characterised, both ways, by the returns around it. |
| RoundTrip.NextDepth | src/cmd/listing.c:687-715 | The summed depth obeys the running update: the effect is added, and a return resets it. |
| RoundTrip.DepthChanges | src/cmd/listing.c:527-547 | From one printed line to the next the depth changes by the table's effect less once the argument counts, twice the doubled counts and array counts, three times the tripled counts and object counts; for the effect 101 the first operand is popped instead; after opcodes 193 and 194 it is 0. |
| RoundTrip.FirstLine | src/cmd/listing.c:655-658 | The first line is at address 0 and depth 0. |
| RoundTrip.TargetCount | src/cmd/listing.c:559-567 | An instruction prints one branch address for each branch operand and no other. |
| RoundTrip.StepOnEncoded | src/cmd/listing.c:670-729 | One turn of the loop on encoded code prints exactly the instruction that stands there, at its address, and moves to the next. |
| RoundTrip.ListingOfEncoded | src/cmd/listing.c:670-730 | The round trip: for every table and instruction list, the listing of its encoding is one line for each instruction, with its operands, address, depth and targets, ending exactly at the end of the code; under exit-on-error this holds if and only if no depth is negative. |
| RoundTrip.EncodeInjective | src/cmd/listing.c:670-730 | No two instruction lists share an encoding. |
| RoundTrip.ConcatAddresses | src/cmd/listing.c:670-689 | In a concatenation the second list is listed from the end of the first. |
| RoundTrip.ConcatDepths | src/cmd/listing.c:687-715 | Its depths are its own, plus, up to its first return, the depth that the first list leaves. |
| RoundTrip.ConcatLines | src/cmd/listing.c:670-730 | Scanning composes: the lines of a concatenation are those of the first list, then those of the second with addresses and targets moved by the first's length and with the depth that the first leaves added up to the second's first return. |
| RoundTrip.BranchShowsDestination | src/cmd/listing.c:559-567 | A branch whose offset was written as destination minus following address prints the destination, in the 8-bit and the 32-bit form. |
| SimplePaths.VisitsExactly | src/cmd/listing.c:765-922 | A walk that marks on entry and clears on exit enters exactly the simple paths through unmarked objects. |
| SimplePaths.VisitsOnce | src/cmd/listing.c:765-922 | It follows no path twice. |
| SimplePaths.LoopErasure | src/cmd/listing.c:765-922 | Every path through unmarked objects can be cut down to a simple one between the same ends. |
| SimplePaths.VisitsCover | src/cmd/listing.c:765-922 | So an object is entered if and only if it can be reached. |
| SlotWalk.SlotLister.constructor | src/cmd/listing.c:765-775 | The listing starts with every mark clear and nothing printed. |
| SlotWalk.SlotLister.ListSlots | src/cmd/listing.c:765-922 | On any finite object graph, cyclic or not, the listing terminates, leaves every VISITED bit as it was, and prints the sections of exactly the simple paths, in the order of the walk. |
| SlotWalk.SlotLister.ListBelow | src/cmd/listing.c:895-922 | The loop over the slots that hold a type, a function or a block keeps every mark and prints what lies below. |
| SlotWalk.SlotLister.ListModule | src/cmd/listing.c:285-285 | The listing of a module from global: an object has a section if and only if a chain of slots that hold types, functions or blocks leads to it, of global only through the module's own range; it has one for each chain that passes no object twice; and every mark is as it was. |
| SlotWalk.ListedExactly | src/cmd/listing.c:903-920 | From clear marks, an object has a section if and only if such a chain leads to it. |
| SlotWalk.ListedOncePerPath | src/cmd/listing.c:765-922 | Each object has exactly as many sections as there are chains from global to it that pass no object twice. |
| SlotWalk.SlotGenerator.constructor | src/cmd/slotGen.c:192-200 | Generation starts with every mark clear and nothing generated. |
| SlotWalk.SlotGenerator.GenType | src/cmd/slotGen.c:192-331 | Generation terminates on any nested-type graph, always returns 0, restores every VISITED bit and generates the owner and then what the walk below it enters. |
| SlotWalk.SlotGenerator.GenModule | src/cmd/slotGen.c:95-105 | The header of a module: global first, then exactly the ends of chains of named slots that hold types of the module, the first slot in the module's range. |
| SlotWalk.GeneratedExactly | src/cmd/slotGen.c:303-330 | From clear marks, a type is generated below the owner if and only if such a chain leads to it. |
| SlotWalk.TypesOnly | src/cmd/slotGen.c:295-331 | Every path that the generator follows ends at a type of the module. |
| DocCracker.EnterKeeps | src/cmd/doc.c:1742-1763 | Marking a doc and clearing its lists keeps the invariant of the search. |
| DocCracker.CopyKeeps | src/cmd/doc.c:1680-1692 | Copying a duplicate's fields keeps the invariant; a copy from a doc still in progress closes a cycle. |
| DocCracker.FinishKeeps | src/cmd/doc.c:1766-1945 | Completing a doc keeps the invariant: its fields then satisfy the equation for a complete doc unless it copied too early, and every pair's value is its first value formatted once for every completed doc that lists it. |
| DocCracker.ReformatAt | src/cmd/doc.c:2159-2167 | Formatting a list of pairs formats each as often as it is listed. |
| DocCracker.FinishValue | src/cmd/doc.c:2139-2175 | Completing a doc formats each pair that it lists once more, also those it shares, and its own for the first time. |
| DocCracker.Cracker.constructor | src/cmd/doc.c:1732-1763 | Before the first call no doc is cracked. |
| DocCracker.Cracker.EnterDoc | src/cmd/doc.c:1742-1763 | The mark is set before anything else and the doc's lists are emptied. |
| DocCracker.Cracker.CopyDuplicate | src/cmd/doc.c:1684-1692 | The duplicated doc's lists and texts replace the doc's own; a doc that names itself loses its lists. |
| DocCracker.Cracker.FinishDoc | src/cmd/doc.c:1766-1945 | The doc's own text is added to what it copied, its own pairs are created, the values of all pairs that it then lists are formatted in place, and the doc is complete. |
| DocCracker.Cracker.FixupDoc | src/cmd/doc.c:2139-2175 | Events, options and parameters are formatted in that order, and no other pairs. |
| DocCracker.Cracker.FormatPairs | src/cmd/doc.c:2159-2167 | Each of its loops formats the values of a list's pairs, one after another. |
| DocCracker.Cracker.MergeDuplicates | src/cmd/doc.c:1661-1698 | The loop over the directives keeps the invariant and records how far it has come. |
| DocCracker.Cracker.CrackDoc | src/cmd/doc.c:1732-1945 | On any `@duplicate` graph, cyclic or not, a call terminates, keeps the invariant, cracks exactly the docs that it leads to through uncracked docs, and leaves every doc cracked before its lists of pairs and its texts; the pairs' values are as the invariant says. |
| DocCracker.Cracker.CrackAll | src/cmd/doc.c:775-830 | A whole run over any roots ends at rest, with every root cracked and no doc completed twice. |
| DocCracker.CrackedExactly | src/cmd/doc.c:1732-1763 | A call cracks exactly the docs that it leads to through docs not cracked before. |
| DocCracker.LateExactly | src/cmd/doc.c:1680-1692 | After any run, a doc leads to one that copied from an incomplete doc if and only if its directives lead to a cycle. |
| DocCracker.SameFields | src/cmd/doc.c:1661-1698 | Without a cycle, any two runs give a doc the same lists of pairs and the same texts, whatever else they crack. |
| DocCracker.FieldsAlong | src/cmd/doc.c:1680-1940 | Without a cycle, each list of a complete doc is the concatenation of that list of the own texts along its last directives, from the far end to the doc; its texts are joined in that order and its default values are its own. |
| DocCracker.SelfDuplicate | src/cmd/doc.c:1680-1692 | A doc whose last directive names itself loses what it copied before and lists its own pairs only. |
| DocCracker.ListsExactly | src/cmd/doc.c:1680-1692 | Without a cycle, a complete doc lists a pair if and only if last directives lead from it to the doc whose own text has the pair. |
| DocCracker.ValueExactly | src/cmd/doc.c:2159-2167 | After any run without a cycle, a pair's value is its first value formatted once for every cracked doc that inherits it. |
| DocCracker.OrderIndependent | src/cmd/doc.c:1661-1698 | Two runs without a cycle that crack the same docs, in any order, give every doc the same lists and texts and every pair the same value. |
| DocCracker.ValuesAgreeExactly | src/cmd/doc.c:2159-2167 | Two runs that crack different docs show the same value if and only if they crack equally many heirs of the pair, or formatting the value once more for each further heir leads back to it. |
| DocCracker.FixedAfterOne | src/cmd/doc.c:2159-2167 | For one further heir that means: if and only if formatting the value again changes nothing. |
| DocCracker.StableValue | src/cmd/doc.c:2159-2167 | If formatting a pair's first value twice is formatting it once, the pair has that value in every run. |
| DocCracker.SharedPairReformatted | src/cmd/doc.c:2159-2167 | Of a doc and one that duplicates it, cracking the second formats the first's parameter a second time. |
| DocCracker.PriceBecomesLink | src/cmd/doc.c:2034-2175 | A run of the cracker in which the parameter text `costs $$5 more` shows a price after its doc is cracked and a link once a duplicate of the doc is cracked too. |
| DocCracker.CrackShared | src/cmd/doc.c:1732-1763 | Each of the two calls in that run, with the value that it leaves. |
| DocFormat.FormattedAgain | src/cmd/doc.c:1947-2136 | Formatting is not idempotent: a doubled dollar becomes a single one, and a single one a link. |
| DocFormat.PlainStable | src/cmd/doc.c:1947-1980 | Plain text that starts with no blank or full stop gets a capital letter and a full stop, and formatting it again changes nothing. |
| DocFormat.TaggedKeepsEnd | src/cmd/doc.c:1966-1978 | Text with a closing tag gets no full stop. |
| DocFormat.WikiRules | src/cmd/doc.c:2049-2070 | A blank line becomes two breaks; a doubled or escaped dollar becomes one dollar. |
| DocCracker.MutualDuplicatesLate | src/cmd/doc.c:1680-1692 | Of two docs that name each other, one always copies too early. |
| DocText.PrepText | src/cmd/doc.c:1704-1729 | The in-place cleaner leaves the cleaned text and its terminator, never writes past what it has read, and touches nothing beyond the old terminator. |
| DocText.CopyLines | src/cmd/doc.c:1714-1728 | Its main loop writes what cleaning leaves of the rest of the text. |
| DocText.SkipIndent | src/cmd/doc.c:1718-1724 | Its inner loop drops the blanks and stars that start a line and keeps empty lines. |
| DocText.CleanExactly | src/cmd/doc.c:1704-1729 | No cleaned line starts with a blank or a star; the texts that cleaning leaves alone are exactly such texts; cleaning twice changes nothing. |
| DocText.CleanSpelled | src/cmd/doc.c:1709-1724 | With the characters written out: cleaning leaves a text alone if and only if it starts with no star, space or character from tab to carriage return, and none of these but a newline follows a newline. |
| DocText.CleanConserves | src/cmd/doc.c:1704-1729 | Every character that is neither blank nor star is kept in order, and so is every newline after the leading run. |
| BlendAlgebra.BlendFrame | paks/assist/blend.js:33-122 | For any source, prefixes, collisions and inherited operator, a property at any depth keeps its value through all nested calls and deletions, if at its level no name of the source strips to its name and on the way down the source neither sets nor deletes. |
| BlendAlgebra.GetOverlay | paks/assist/blend.js:33-123 | The reference merge, property by property: a value of one side is kept, two values are combined. |
| BlendAlgebra.BlendIsOverlay | paks/assist/blend.js:33-123 | On prefix-free trees that never put an array against an object, the loop of `blend` computes the reference merge, names in order and values. |
| BlendAlgebra.OverAssoc | paks/assist/blend.js:84-122 | The reference merge is associative on such trees. |
| BlendAlgebra.BlendAssociative | paks/assist/index.js:30-42 | So `blend` is associative, by default and under an inherited `+`. |
| BlendAlgebra.BlendIdempotent | paks/assist/blend.js:33-123 | Blending an object into an equal one changes nothing. |
| BlendAlgebra.Regroup | paks/assist/index.js:30-42 | Layered configuration files can be grouped in any way. |
| BlendAlgebra.LayeredIsBlendAll | paks/assist/index.js:30-42 | The layered result is the one that the loop over the files computes. |
| BlendAlgebra.SumAt | paks/assist/blend.js:105-107 | Under `+` the number at every path of the reference merge is the sum of the two. |
| BlendAlgebra.BlendSums | paks/assist/blend.js:89-107 | `blend` with an inherited `+` sums the numbers at every path, keeps those of one side only, and does not depend on the order of its operands. |
| BlendOperators.AskName | paks/assist/blend.js:57-59 | A name written `?p` leaves `p` if it is there and adds it if not, for every destination and source. |
| BlendOperators.SetName | paks/assist/blend.js:55-116 | `=p` makes `p` the source's value, whatever it was. |
| BlendOperators.SubName | paks/assist/blend.js:52-118 | `-p` leaves an absent `p` and an array, deletes objects, booleans, null and undefined, deletes an equal string or removes text from another, and subtracts numbers. |
| BlendOperators.AddName | paks/assist/blend.js:55-120 | `+p` adds an absent `p`, appends to an array, descends into an object with `+`, joins to a string with a space, adds numbers, and replaces anything else. |
| BlendOperators.PlainName | paks/assist/blend.js:46-121 | A name without a prefix, by default, descends into an object or leaves it, and replaces or adds anything else. |
| BlendOperators.InheritedName | paks/assist/blend.js:44-45 | An inherited operator does what its prefix does. |
| BlendOperators.ArrayItem | paks/assist/blend.js:33-50 | A source array acts by its indices and its length as names. |
| BlendTree.DecimalReads | paks/assist/blend.js:33-33 | The name of an index is its decimal form without leading zeros. |
| BlendHeap.Frame | paks/assist/blend.js:33-123 | What a heap value represents depends on its own cells only. |
| BlendHeap.ReplaceKid | paks/assist/blend.js:82-120 | Storing a new value in a property gives a tree of its own, with the other properties' cells as they were. |
| BlendHeap.AppendKid | paks/assist/blend.js:55-55 | So does adding a property. |
| BlendHeap.RemoveKid | paks/assist/blend.js:88-88 | So does deleting one. |
| Blender.JsHeap.constructor | paks/assist/blend.js:26-32 | The heap starts empty. |
| Blender.JsHeap.Clone | paks/assist/blend.js:5-24 | A clone represents the same tree, is a tree of its own, and changes no existing cell; it is a new cell, an object's properties are again clones, and an array has exactly the original's items. |
| BlendSteps.CopiedOpen | paks/assist/blend.js:5-24 | So every object of a clone, and every array that is not inside another, is a new cell. |
| Blender.JsHeap.CloneKids | paks/assist/blend.js:12-19 | The loop over an object's properties clones each into new cells, and the clones share no cell. |
| Blender.JsHeap.Blend | paks/assist/blend.js:26-124 | The destination then represents the blend of the two trees and is again a tree of its own; only its cells have changed, and those of the source only if two of its names strip alike. |
| Blender.JsHeap.BlendEach | paks/assist/blend.js:33-123 | The loop over the source's own names: every heap comes from the one before by one turn. |
| Blender.JsHeap.BlendProperty | paks/assist/blend.js:34-60 | One turn: the destination represents the next tree, and every property but one keeps its value and its cells. |
| Blender.JsHeap.ChangeValue | paks/assist/blend.js:60-122 | The case analysis on the destination's value stores, deletes or leaves as the tree merge says; a value changed in place is stored itself, and only then do its cells change. |
| Blender.JsHeap.ChangePrim | paks/assist/blend.js:92-122 | For strings, numbers and the rest the new value is computed, deleted, or the source itself, uncloned. |
| Blender.JsHeap.PushOnto | paks/assist/blend.js:62-69 | Array `+` appends the source, or every item of a source array: the whole-array test never finds anything, since trees of their own share no cell. |
| Blender.JsHeap.LayerFiles | paks/assist/index.js:30-42 | Blending any number of separately parsed files into the configuration leaves it representing the blend of all of them, whatever parts of earlier files it has come to share. |
| Blender.SourceUnchanged | paks/assist/blend.js:33-124 | A source whose names differ once stripped comes out with every cell as it was, although parts of it may now belong to the destination. |
| BlendLoop.TrackNext | paks/assist/blend.js:33-123 | Every turn of the loop keeps the account of sharing: whose cells each property of the destination has, which value of the source it has borrowed or is a clone of, and which parts of the source are as they were. |
| BlendProps.ClonedApart | paks/assist/blend.js:55-86 | After a blend, a property that was absent, or set over an object or array, or replaced an array, is a copy of the source's as it was, and shares no object of the source except inside an array. |
| BlendLoop.TraceTracked | paks/assist/blend.js:33-123 | So the account holds after every property of the source. |
| BlendCollision.CollisionExactly | paks/assist/blend.js:60-122 | If exactly two names of the source strip alike and the destination has a primitive there, the source still represents what it did if and only if the first name does not lend its object or array uncloned, or the second does not change it in place to another. |
| BlendCollision.BooleanCollision | paks/assist/blend.js:114-121 | So some destination changes such a source, one with a boolean there, exactly if the first value is an object or array neither subtracted nor asked for and the second changes it in place to another. |
| BlendCollision.ArrayGrows | paks/assist/blend.js:61-69 | For an array that is: if and only if the second name has `+` and its value is not an empty array. |
| Blender.JsHeap.CollidingNames | paks/assist/blend.js:26-124 | Blending {a: {}, +a: {x: 1}} into {a: true} changes the source. |
| BlendLoop.StripsDiffer | paks/assist/blend.js:33-43 | The indices and the length of a source array never collide once stripped. |
| Alpn.MakeAlpn | paks/mpr-openssl/mpr-openssl.c:838-858 | For any NUL-free names the buffer has exactly the computed size and, unless there are no names, is filled exactly with each length byte and name and one terminator. |
| Alpn.CopyItem | paks/mpr-openssl/mpr-openssl.c:849-856 | One name is written after its length byte, and nothing before it changes. |
| Alpn.SentExactly | paks/mpr-openssl/mpr-openssl.c:771-771 | For any list of at least one name, a peer that parses the bytes sent, as section 3.1 of RFC 7301 has it, reads the configured names if and only if each has 1 to 255 bytes; then the length sent is the sum of the lengths and one for each name. |
| Alpn.NothingSent | paks/mpr-openssl/mpr-openssl.c:849-856 | A list that starts with an empty name, or one of 256 bytes, is sent as no bytes. |
| Alpn.LongNameWraps | paks/mpr-openssl/mpr-openssl.c:849-856 | A name of 257 bytes is sent with the length 1 and read as other names. |
| SecureWrite.TlsSocket.constructor | paks/mpr-openssl/mpr-openssl.c:1091-1102 | A socket starts with nothing asked and nothing delivered. |
| SecureWrite.TlsSocket.WriteOss | paks/mpr-openssl/mpr-openssl.c:1091-1131 | For every schedule of partial writes, requests for time and failures, the loop terminates, delivers exactly a prefix and returns its count, not-ready or the error; and the returned value tells the bytes delivered if and only if the library's answers are fair. |
| SecureWrite.TlsSocket.SendAll | paks/mpr-openssl/mpr-openssl.c:1091-1131 | A caller that submits what is left loses and repeats nothing as long as no error is returned; if the library never fails and stops asking for time, the whole message is delivered. |
| SecureWrite.PatientSends | paks/mpr-openssl/mpr-openssl.c:1106-1125 | A call to a library that does not fail sends everything, unless the library asks for time. |
| SecureWrite.TlsSocket.WriteLoop | paks/mpr-openssl/mpr-openssl.c:1106-1130 | The loop itself, turn by turn. |
| SecureWrite.TroubleExactly | paks/mpr-openssl/mpr-openssl.c:1106-1125 | A call ends with an error if and only if, while bytes are left after only plain accepts, some answer refuses or accepts under attack. |
| SecureWrite.CountTold | paks/mpr-openssl/mpr-openssl.c:1109-1130 | The returned value, an error taken as nothing, tells the number of bytes delivered if and only if no answer that is asked for refuses after an earlier accept and none accepts under attack. |
| SecureWrite.LongMessageRefused | paks/mpr-openssl/mpr-openssl.c:1107-1107 | A message of 2^31 up to 2^32 bytes is refused at once, since its length is passed as an `int`. |
| SecureWrite.UntoldBytes | paks/mpr-openssl/mpr-openssl.c:1109-1116 | A byte can be delivered by a call that returns only an error. |

## Left out

Not modelled, because it would add only easier members:

- `joinLines` and `getFilename` of src/cmd/doc.c: single-pass string rewrites.
- The save and restore of compiler state in src/compiler/ecCompiler.c: a bracket of assignments around calls.
- `lstClose` and the other record printers of src/cmd/listing.c, `mapName` and the cipher tables: formatting and lookup.
- HTML generation and the `@`-keyword scanner of src/cmd/doc.c: a doc is abstracted to its resolved directives and its own
  fields; how texts are joined and values formatted are arbitrary functions, of which `DocFormat` is one instance.
- The lexer, parser, virtual machine and module loader; of the code generator only the operand encoders are modelled.

Assumptions and limits of the modelled parts:

- The listing's text is a sequence of lines with their operands; buffers such as `argbuf` have no size. The value
  printed for each object attribute is not part of a line: the code prints the count there.
- The listing's reads are bounded by the mapped bytes and report an overrun; C would read on. A shift of 32 or more,
  which C leaves undefined, is reported as undefined. Depths are unbounded. `char` is taken to be signed where an
  8-bit branch offset is cast to it.
- RoundTrip.ListingOfEncoded: operands are limited to what a code generator can write, so numbers are 32-bit and the
  encoding of the most negative 64-bit number is not considered.
- A section stands for one entry into an object, also where the tool prints no text for it, as for a block without slots.
- Slots, kinds and modules of objects are as loaded; property lookup by name is not modelled, and neither is the text of
  the generated header.
- DocCracker.Cracker.CrackDoc: the directives met again in the main scan of a doc's text (src/cmd/doc.c:1829-1865) are not
  modelled: `mergeDuplicates` has by then removed every directive that names something.
- DocFormat.FormattedAgain: references that name a class are an arbitrary text, since they depend on the loaded classes.
- DocCracker.ValueExactly: for docs on a cycle only the invariant is given, which counts the docs that came to list a pair
  and not those that should.
- In the blender, prototypes, accessors, functions, dates, regular expressions, an own property named `hasOwnProperty`
  and the special order of integer-like names are left out. `String.replace`, loose equality and the conversions of
  operands of another type are arbitrary functions. Numbers are reals, so rounding is left out. A string as the whole
  source of a `blend` is left out.
- BlendCollision.CollisionExactly: a destination with an object, an array or nothing under the colliding name, and a source
  with several collisions, are not characterised; for them only the condition of `Blender.SourceUnchanged` is given.
- Alpn.MakeAlpn: for no names at all the code allocates one byte and leaves it as it is, so its content is not stated.
- The TLS library is an arbitrary function from the question's number and the length offered to an answer; it takes at
  least one byte of a positive request and refuses a length that is not positive once converted to `int`.
