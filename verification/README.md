# A Dafny model of Tahoe-LAFS

This project models the parts of Tahoe-LAFS whose correctness is hardest to see from the code, and proves what they
promise. `dafny verify dfyconfig.toml` checks all of it.

* **Merkle hash trees** (`TreeShape`, `HashTree`, `TreeClosure`, `IncompleteHashTree`, `MerkleProofs`). The complete
  tree, and the partial tree that merges untrusted hashes in place, checks them level by level in whatever order its
  sets give them up, and rolls back. `TreeClosure` says what merging means without any algorithm; `SetHashes` is proved
  against it; `MerkleProofs` proves soundness over whole runs, completeness, minimality, and exactly when the order of
  popping decides which exception is raised.
* **Capabilities** (`Caps`, `CapProofs`, `CapStrings`, `Base32`). Parsing, printing and attenuation of the eighteen cap
  classes, and exactly which strings parse to a given cap.
* **Nodes** (`Nodes`). Unknown caps, deep immutability, and the node cache over every history.
* **Directories** (`NetstringCodec`, `Sorting`, `Directory`, `DirectoryProofs`, `FreshPacking`, `Modifiers`,
  `ModifierProofs`, `ModifiedLinks`, `ReaderViews`). The nested-netstring format with its cached packed entries, the
  three views of a directory and how they agree over every history, and the modifiers on packed bytes as refinements of
  map updates, down to the child and the metadata that each link ends up with.
* **Deep traversal** (`WalkTrace`, `WalkOrder`, `Traversal`, `WalkPaths`, `CapabilityGraph`). A depth-first walk over a
  possibly cyclic graph of caps, the order of what it hands over and under which path, and the graph that stored
  directories make.
* **Smaller cores** (`UriExtension`, `RingPlacement`, `Binomial`, `Broker`). The URI extension block, share placement on
  a ring of servers, the binomial routine, the broker's threshold listeners.

## How to read it

Byte strings are Dafny strings. `pair_hash`, the other hashes, AES, UTF-8, NFC and JSON are function values that every
statement is quantified over. What is assumed of them is in `Caps.Laws`, `Directory.EnvLaws` and, for the ASCII keys of
an extension block, `UriExtension.DecodesKeys`. `Base32.LawsHold` shows that the base32 part is true of base32. A JSON
number is an integer or a finite double, so that each value prints as a text that is read back as itself. Hashes in a
tree are non-empty, because the code asks by truthiness whether a slot is filled. Times, the blacklist, the contents of
stored directories and the order in which dictionaries and sets give up their elements are parameters. `int()` on bytes
is modelled with its white space, sign and underscores.

An exception that a caller is meant to catch is a value of a result datatype. All the exceptions that abort the
unpacking of a whole directory are one outcome, `Malformed`.

Where the code and its documentation differ, or a promise is false of the code, the model follows the code:

* `set_hashes` (hashtree.py:354-358) says that leaf i is hash `num_leaves-1+i`. The code counts from `first_leaf_num`,
  which is the same exactly for powers of two (`FirstLeafIsDocumented`).
* A node number beyond the tree raises an IndexError, which undoes nothing: `OutOfRangeSpoils` gives a call that leaves
  a wrong hash behind, `FailureIsUndone` says of which arguments a failing call is sure to leave the tree as it was.
* Which exception `set_hashes` raises can depend on the order of popping (`ExceptionDependsOnOrder`); `OrderMatters` says
  exactly when. That it raises one, and the tree afterwards if all nodes are in range, cannot.
* The patterns accept more than printed caps: `ParsedStrings` says exactly which strings parse to a cap, leading zeros
  included, and `ParseContinued` what may follow a printed one.
* nodemaker.py:84-86 says that mutable nodes are not cached; the code caches those and no others (`CreateFromCap`).
* `deep_traverse` (dirnode.py:759-764) says that any file or directory is given to the walker once. That holds for
  objects with a verify cap. Literal and unknown objects are given once per link (`GivenPerLink`, `LiteralGivenTwice`).
* The walk is strictly depth-first (dirnode.py:776), in the order of paths (`GivenInPathOrder`). An object with several
  paths need not be given under the first of them: children are noted before subdirectories are walked (`SiblingLinked`).
  `GivenFirstIff` says exactly when it is, and for files it always is (`FileGivenFirst`).
* It also says that each node that can be reached is given. That is false where a directory can be reached by two caps
  that list differently (`StoredCoverageFails`) and true where writers and readers agree (`TraverseStored`). Whenever
  the two caps of a directory lead to different objects, some root misses one (`DisagreementIsMissed`).
* "Unpack gives back what was packed" is false of unknown children with trailing spaces, with an empty read cap after
  the prefix, or with two prefixes (`NotAllSurvive`). `UnknownSurvivesMutable` and `UnknownSurvivesImmutable` say exactly
  which survive.
* Setting metadata on such a child can silently delete the link (`TwoPrefixesLost`, `ImmutableReadCapLost`);
  `AddRefines` and `SetMetadataRefines` say exactly when a link is there afterwards.
* That readers of a mutable directory see the read-only forms of what its writer sees is false of some entries: a known
  read cap beside an unknown write cap (`HiddenReadCap`), or one that claims to be immutable, where readers see a name
  that the writer lost (`NameOnlyReadersSee`). `EntryAgreesIff` says exactly of which entries it is true, and
  `HistoryAgrees` exactly of which histories; `ReaderSeesReadonly` gives a kind of children with which it always is.
* `unpack_extension` fails on a packed dictionary exactly when one of the five integer keys holds text that is no number
  (`UriExtension.RoundTrip`, `SizeThatIsNoNumber`).
* `when_connected_enough` (storage_client.py:382-384) says "above" the threshold; the code fires at the threshold.

## Model

| member | source | states |
|---|---|---|
| `TreeShape.RoundupPow2` | src/allmydata/hashtree.py:71-78 | the result is the least power of two that is at least x |
| `TreeShape.FirstLeafIsDocumented` | src/allmydata/hashtree.py:354-358 | leaf 0 is node num_leaves-1, as documented, if and only if the number of leaves is a power of two |
| `TreeShape.SiblingFacts` | src/allmydata/hashtree.py:102-136 | sibling is a symmetric neighbour with the same parent; the two are that parent's children |
| `TreeShape.DepthOfLevel` | src/allmydata/hashtree.py:179-182 | level d holds exactly the nodes 2^d-1 to 2^(d+1)-2 |
| `TreeShape.DepthOfFamily` | src/allmydata/hashtree.py:478-479 | a parent is one level up and siblings share a level, so the assertion in `set_hashes` never fires |
| `TreeShape.NeededFor` | src/allmydata/hashtree.py:138-149 | the loop collects the sibling chain |
| `TreeShape.SiblingChainMembers` | src/allmydata/hashtree.py:138-149 | the chain holds exactly the siblings of the non-root ancestors, both directions |
| `HashTree.BuildHashTree` | src/allmydata/hashtree.py:207-234 | rows built upwards and flattened give a tree whose leaves are the padded input and whose inner nodes are the pair hashes of their children |
| `HashTree.MerkleTreeUnique` | src/allmydata/hashtree.py:207-234 | that description determines the tree |
| `TreeClosure.UpwardClosureUnique` | src/allmydata/hashtree.py:407-425 | a tree and new hashes have at most one upward closure |
| `TreeClosure.AcceptsIffClosureExists` | src/allmydata/hashtree.py:407-425 | inputs are acceptable exactly when an upward closure exists, and then it is the computed one |
| `TreeClosure.ClosureValidated` | src/allmydata/hashtree.py:338-345 | merging keeps every populated node and keeps every populated non-root node validated against sibling and parent |
| `IncompleteHashTree.IncompleteHashTree.constructor` | src/allmydata/hashtree.py:296-308 | an empty tree over the padded number of leaves |
| `IncompleteHashTree.IncompleteHashTree.NeededHashes` | src/allmydata/hashtree.py:311-325 | exactly the nodes of the sibling chain that are still holes, and the leaf if asked for |
| `IncompleteHashTree.IncompleteHashTree.MergeArguments` | src/allmydata/hashtree.py:395-403 | leaves and hashes merge, unless they name one node with two values |
| `IncompleteHashTree.IncompleteHashTree.AddProvisionally` | src/allmydata/hashtree.py:433-447 | new hashes fill holes and get a red dot each; the first clash or node out of range in the given order decides how it ends and what is written by then |
| `IncompleteHashTree.IncompleteHashTree.CheckDot` | src/allmydata/hashtree.py:452-483 | one red dot is validated against sibling and parent, or the parent derived, or the failure is a real one of the closure |
| `IncompleteHashTree.IncompleteHashTree.CheckLevel` | src/allmydata/hashtree.py:450-483 | popping a level empty settles it and leaves exactly the dots of the next level, or ends with the first faulty dot in the given order |
| `IncompleteHashTree.IncompleteHashTree.CheckAllLevels` | src/allmydata/hashtree.py:449-484 | either the tree becomes the closure with everything validated, or the first fault of the deepest faulty level is raised |
| `IncompleteHashTree.IncompleteHashTree.RollBack` | src/allmydata/hashtree.py:486-489 | the tree is exactly what it was |
| `IncompleteHashTree.IncompleteHashTree.SetHashes` | src/allmydata/hashtree.py:335-489 | for any arguments and order: it succeeds exactly when all nodes are in range and the closure exists; the tree is then the closure, otherwise unchanged except after an IndexError; the outcome is the one the order determines |
| `IncompleteHashTree.ExplainsFailure` | src/allmydata/hashtree.py:340-352 | an explained outcome is acceptance exactly when the inputs are acceptable |
| `IncompleteHashTree.OutcomeExplained` | src/allmydata/hashtree.py:449-489 | whatever the order, a call ends in one of the explained ways, and success does not depend on the order |
| `MerkleProofs.FindCollision` | src/allmydata/hashtree.py:187-188 | from a wrong node under a right root, two different pairs with the same pair hash are computed |
| `MerkleProofs.RunKeeps` | src/allmydata/hashtree.py:335-489 | every run of succeeding and failing calls within range keeps the tree validated and keeps every accepted node |
| `MerkleProofs.Soundness` | src/allmydata/hashtree.py:335-489 | after the genuine root and any calls within range, every populated node is genuine or a collision is exhibited |
| `MerkleProofs.FailureIsUndone` | src/allmydata/hashtree.py:435-489 | a failing call leaves the tree as it was in every order if and only if its arguments contradict each other, or all nodes are in range, or no supplied node is a hole |
| `MerkleProofs.OutOfRangeSpoils` | src/allmydata/hashtree.py:435-447 | a call with a node out of range after which the tree holds a hash that is not validated and not the genuine one |
| `MerkleProofs.NeededSuffices` | src/allmydata/hashtree.py:311-325 | the genuine values at exactly the needed nodes plus the leaf are always accepted, and nothing more is needed for that leaf afterwards |
| `MerkleProofs.OmissionNeverSuffices` | src/allmydata/hashtree.py:449-483 | with any needed hash omitted the call can only end in NotEnoughHashesError, in any pop order |
| `MerkleProofs.EveryOutcomeHappens` | src/allmydata/hashtree.py:449-483 | the explanation is tight: each explained outcome is the one some order leads to |
| `MerkleProofs.OrderMatters` | src/allmydata/hashtree.py:449-483 | the outcome is the same in every order if and only if the deepest faulty level has faults of one kind and a clash does not come with a node out of range |
| `MerkleProofs.ExceptionDependsOnOrder` | src/allmydata/hashtree.py:449-483 | a call with a bad pair and a missing sibling on one level raises either exception, by which is popped first |
| `NetstringCodec.ParseIntDecimal` | src/allmydata/util/netstring.py:23-43 | printing an integer and reading it back gives the integer |
| `NetstringCodec.NumeralIff` | src/allmydata/util/netstring.py:43 | digits are read if and only if each underscore stands between two digits, and underscores do not count |
| `NetstringCodec.IntegerReads` | src/allmydata/util/netstring.py:43 | white space, a sign or none, a numeral and white space read as that number |
| `NetstringCodec.IntegerHas` | src/allmydata/util/netstring.py:43 | only such byte strings are numbers |
| `NetstringCodec.TakeNetstringInverse` | src/allmydata/util/netstring.py:23-49 | a netstring in front of anything is read back exactly, whatever it contains |
| `NetstringCodec.TakenParts` | src/allmydata/util/netstring.py:42-49 | whatever is taken off the front is a number, a colon, that many bytes and a comma |
| `NetstringCodec.SplitNetstring` | src/allmydata/util/netstring.py:27-59 | the position-based loop returns the elements and the rest that the recursive description gives, and fails exactly when it fails or the rest is not the required trailer |
| `NetstringCodec.SplitInverse` | src/allmydata/util/netstring.py:23-59 | splitting off as many netstrings as were joined gives them back and leaves what follows |
| `Sorting.ListingUnique` | src/allmydata/dirnode.py:277 | a set of names has one sorted listing |
| `Sorting.SortNames` | src/allmydata/dirnode.py:277 | the listing is sorted, complete and without repetition |
| `UriExtension.PackExtension` | src/allmydata/uri.py:894-906 | it fails exactly on an illegal key, and otherwise joins the pieces in sorted order |
| `UriExtension.UnpackExtension` | src/allmydata/uri.py:908-931 | the loop over the shrinking data, negative lengths included, computes the recursive description and consumes all input |
| `UriExtension.TakenField` | src/allmydata/uri.py:911-922 | whatever field is taken off the front with a length that is not negative is a key, a colon, a number, a colon, that many bytes and a comma |
| `UriExtension.KeyCharacters` | src/allmydata/uri.py:903 | the characters that keys may have, by their codes |
| `UriExtension.RoundTrip` | src/allmydata/uri.py:894-931 | unpacking a packed dictionary gives it back with numbers in decimal and the five integer keys parsed, and fails exactly when one of those does not parse |
| `UriExtension.ExtensionComesBack` | src/allmydata/uri.py:894-931 | a dictionary with numbers under the five keys by name, where it has them, and byte strings elsewhere comes back as it was |
| `UriExtension.SizeThatIsNoNumber` | src/allmydata/uri.py:926-930 | a dictionary that packs and does not unpack |
| `UriExtension.NumbersSurvive` | src/allmydata/interfaces.py:427-430 | numbers under the integer keys and text elsewhere come back unchanged |
| `Caps.FirstMatch` | src/allmydata/uri.py:766-817 | the class found is one whose prefix the string has |
| `CapProofs.PrefixUnique` | src/allmydata/uri.py:766-817 | a string has the prefix of at most one of the eighteen classes |
| `CapProofs.DispatchFinds` | src/allmydata/uri.py:766-817 | the order in which the classes are tried does not matter, both directions |
| `CapProofs.ParsedWellFormed` | src/allmydata/uri.py:83-89 | whatever a class parses has fields of the right size and is of that class |
| `CapProofs.ParsedKind` | src/allmydata/uri.py:743-837 | a cap parsed in an immutable context or after "imm." is not mutable, and after "ro." not writeable |
| `CapProofs.ParsePrinted` | src/allmydata/uri.py:743-837 | under any prefix in any context a printed cap parses to itself unless its kind is forbidden there, and then the stronger constraint is reported |
| `CapStrings.ParsedStrings` | src/allmydata/uri.py:743-837 | for every string and context: it parses to a cap if and only if it is a permitted prefix, the class prefix, the printed keys or data, the numbers with any leading zeros, and what the end of the pattern lets through |
| `CapStrings.ParseContinued` | src/allmydata/uri.py:68-72 | exactly which strings that continue a printed cap parse to that cap, for every class |
| `CapProofs.ToStringInjective` | src/allmydata/uri.py:44-58 | caps are compared by string; caps that print alike are equal |
| `CapProofs.Attenuation` | src/allmydata/uri.py:213-306 | the read-only form is final and has the same verify cap and storage index; so has the verify cap; all are of one format with the same hash or fingerprint and the same numbers |
| `CapProofs.PrefixesOfFiles` | src/allmydata/uri.py:766-791 | the nine prefixes of file caps |
| `CapProofs.PrefixesOfDirectories` | src/allmydata/uri.py:792-817 | the nine prefixes of directory caps |
| `CapProofs.AttenuatedStrings` | src/allmydata/uri.py:491-526 | the strings of a cap, its read-only form and its verify cap parse to them, under their prefixes too |
| `Base32.DecodeInverse` | src/allmydata/util/base32.py:56-62 | decoding an encoded byte string gives it back, for every length |
| `Base32.EncodeInverse` | src/allmydata/util/base32.py:113-125 | encoding what was decoded from a string that fits the patterns gives that string |
| `Base32.EncodedPattern` | src/allmydata/util/base32.py:44-54 | every encoded string fits the pattern for any number of bytes |
| `Base32.LawsHold` | src/allmydata/uri.py:38-39 | with this base32 and any 16-byte hashes all the laws assumed of the capability code's primitives hold |
| `Nodes.InitUnknownNode` | src/allmydata/unknown.py:42-134 | the step-by-step constructor with its early returns equals the description by which slots are filled |
| `Nodes.UnknownFits` | src/allmydata/unknown.py:42-134 | an unknown node is opaque with an error, or its slots fit its context |
| `Nodes.CreationIsSafe` | src/allmydata/nodemaker.py:59-92 | deep immutability: no known-mutable node and no write cap, read caps alleged immutable; elsewhere a write cap always comes with a read cap alleged read-only |
| `Nodes.NodeMaker.CreateFromCap` | src/allmydata/nodemaker.py:59-103 | cache transparency: the result is what an empty cache gives; a mutable known node is cached afterwards and nothing else is new; after any history the node is prohibited if and only if it is for a known cap with a blacklisted storage index, for the reason listed |
| `Nodes.BlacklistEnforced` | src/allmydata/nodemaker.py:94-103 | a node is prohibited exactly for known caps whose storage index is on the blacklist, with the listed reason and the cap that the string parses to; no other known node is for a blacklisted index |
| `Nodes.UnknownErrors` | src/allmydata/unknown.py:58-113 | which error an unknown node records: a lone cap that may be a write cap, a write cap beside what must be immutable, else that of its read cap |
| `Nodes.UnknownIff` | src/allmydata/nodemaker.py:105-126 | a cap string makes an opaque node if and only if it is not understood or is a verify cap of anything but an immutable file |
| `Nodes.NodeMaker.Evict` | src/allmydata/nodemaker.py:41 | losing cache entries keeps the invariant |
| `Nodes.NodeMaker.SetBlacklist` | src/allmydata/nodemaker.py:94-102 | changing the blacklist keeps the invariant |
| `Directory.AuxValueDict.SetItem` | src/allmydata/util/dictutil.py:61-63 | assignment replaces the value and clears the cached entry |
| `Directory.AuxValueDict.SetWithAux` | src/allmydata/util/dictutil.py:76-81 | value and cached entry are set together |
| `Directory.AuxValueDict.DelItem` | src/allmydata/util/dictutil.py:65-67 | exactly one key goes |
| `Directory.UnpackContents` | src/allmydata/dirnode.py:374-432 | the loop over positions fills the dictionary that the recursive description gives, and raises exactly when it fails; `UnpackReadsLast` says what that is |
| `DirectoryProofs.UnpackReadsLast` | src/allmydata/dirnode.py:388-432 | for any bytes and view: it fails exactly if they are no list of entries or an entry is malformed; a name is there exactly if some entry is kept under it, and the last such entry is the one read, with its bytes |
| `DirectoryProofs.NamesNormalized` | src/allmydata/dirnode.py:396-400 | every name that is read is in normal form |
| `DirectoryProofs.PacksIff` | src/allmydata/dirnode.py:277-290 | packing succeeds if and only if no child records an error or lacks strings, and for an immutable directory none is mutable or has a write cap |
| `DirectoryProofs.PackedInOrder` | src/allmydata/dirnode.py:277-312 | the packed bytes are one entry per child in increasing order of the names |
| `FreshPacking.EntryDecodes` | src/allmydata/dirnode.py:391-417 | an entry counts under the normal form of whatever name it has, with its metadata and the node of its two cap fields |
| `FreshPacking.EntrySpoils` | src/allmydata/dirnode.py:389-426 | which entries of four fields abort the unpacking, in every view |
| `Directory.PackNormalizedChildren` | src/allmydata/dirnode.py:258-312 | the loop over sorted names joins the entries, cached or fresh, and raises exactly when one of them does |
| `DirectoryProofs.PackThenUnpack` | src/allmydata/dirnode.py:258-432 | whatever mixture of untouched and fresh children is packed, each name reads back as what its own entry decodes to, and nothing else |
| `DirectoryProofs.UntouchedEntry` | src/allmydata/dirnode.py:286-288 | an untouched child repacks to the exact bytes it was read from |
| `DirectoryProofs.RepackIsIdentity` | src/allmydata/dirnode.py:374-436 | for every byte string that unpacks, packing succeeds and unpacking that gives the same children and entries |
| `FreshPacking.DecryptInverse` | src/allmydata/dirnode.py:232-242 | decrypting an encrypted write cap with the same key gives the write cap |
| `Basics.SliceFromEnd` | src/allmydata/dirnode.py:352-355 | slices that count from the end of a byte string, however short it is |
| `FreshPacking.RwFieldParts` | src/allmydata/dirnode.py:232-244 | a stored write cap is a 16-byte salt, the cap encrypted with the key of salt and write key, and a 32-byte MAC of both |
| `FreshPacking.FreshDecodes` | src/allmydata/dirnode.py:289-310 | a fresh entry keeps name and metadata, and its node is what its stored strings make in the view |
| `FreshPacking.StoredKnown` | src/allmydata/dirnode.py:402-417 | a known child is stored as itself for writers and immutable directories and as its read-only form for readers |
| `FreshPacking.VerdictLoosens` | src/allmydata/uri.py:743-837 | lifting constraints never changes the verdict on a string that was not refused |
| `FreshPacking.FutureCaps` | src/allmydata/uri.py:818-837 | the two formats for testing future caps are unknown, and refused where their name is forbidden |
| `FreshPacking.CreatedIsProducible` | src/allmydata/unknown.py:105-134 | no string of an error-free unknown node could have made a known node |
| `FreshPacking.UnknownSurvivesMutable` | src/allmydata/unknown.py:22-37 | an unknown child survives a mutable directory if and only if its strings have no trailing spaces and its read cap is a prefix and a plain rest |
| `FreshPacking.UnknownSurvivesImmutable` | src/allmydata/unknown.py:22-37 | the same for immutable directories, where only alleged-immutable children survive |
| `FreshPacking.NotAllSurvive` | src/allmydata/unknown.py:22-37 | children that creation returns and that are read back changed: two prefixes, an empty rest, a trailing space |
| `FreshPacking.KeptIff` | src/allmydata/dirnode.py:402-426 | a link to a child packed anew is found again if and only if its strings, one prefix and trailing spaces taken off, are not refused |
| `FreshPacking.NoWriteStored` | src/allmydata/dirnode.py:402-417 | a child that cannot be written through is not read back as one that can |
| `Modifiers.Deleter.Modify` | src/allmydata/dirnode.py:138-155 | every branch of deleting, and the old child it remembers |
| `Modifiers.SetMetadata` | src/allmydata/dirnode.py:165-180 | every branch of setting metadata, the read-only downgrade included; `DescribedLink` says what is read afterwards |
| `Modifiers.Add` | src/allmydata/dirnode.py:204-230 | the loop over entries with its overwrite rules computes the fold of single updates; `AddedLink` says what is read afterwards |
| `Modifiers.AddOne` | src/allmydata/dirnode.py:207-228 | one entry's update of the dictionary, or the exception it raises |
| `ModifierProofs.DeleteRefines` | src/allmydata/dirnode.py:130-155 | new contents read back as the old map without the name, bytes of all others unchanged; exactly when there are new contents, no change, a missing child, a child of the wrong kind, and unreadable contents |
| `ModifierProofs.SetMetadataRefines` | src/allmydata/dirnode.py:158-180 | new contents read back as the old map with at most that one link changed; the link is there if and only if its child is kept, with the updated metadata, the child itself if it survives, and no write cap if marked "no-write" |
| `ModifiedLinks.DescribedLink` | src/allmydata/dirnode.py:165-180 | afterwards the link reads with the keys of the update, or its own, except "tahoe", the old creation time, the present time as modification time and all other system fields, and with the same child, or what its read cap makes if marked "no-write" |
| `ModifierProofs.TwoPrefixesLost` | src/allmydata/dirnode.py:165-180 | contents on which setting metadata deletes the link: two prefixes before a write cap |
| `ModifierProofs.ImmutableReadCapLost` | src/allmydata/dirnode.py:165-180 | the same for a read cap that claims to be immutable beside an unknown write cap |
| `ModifierProofs.AddRefines` | src/allmydata/dirnode.py:183-230 | new contents read back as the old map with only the named links changed, untouched links with their exact bytes; a named link is there if and only if its child is kept, and is as for setting metadata |
| `ModifiedLinks.AddedLink` | src/allmydata/dirnode.py:204-230 | the same for each name added: with the child of the last entry that normalizes to it, and the metadata of the last one that gives any |
| `ModifiedLinks.UpdatedIs` | src/allmydata/dirnode.py:84-123 | updated metadata, key by key |
| `ModifiedLinks.UpdatedTwice` | src/allmydata/dirnode.py:84-123 | two updates at one time amount to one with the later user part |
| `ModifiedLinks.EntryRefused` | src/allmydata/dirnode.py:213-222 | an entry is refused with its child's error, or because the name exists exactly if overwriting forbids it |
| `ModifiedLinks.BatchRefused` | src/allmydata/dirnode.py:207-228 | a batch stops at its first refused entry, with the error of that |
| `ModifierProofs.SetMetadataSucceeds` | src/allmydata/dirnode.py:165-180 | setting metadata returns new contents if and only if the old ones can be read, the link exists, its system metadata is a dictionary, and a node with strings can be linked, read-only if so marked; it reports a missing child exactly if the link is not there |
| `ModifierProofs.AddSucceeds` | src/allmydata/dirnode.py:204-230 | adding returns new contents if and only if the old ones can be read, each entry is allowed when its turn comes, and the nodes finally linked have strings |
| `ModifierProofs.AddedSurvivor` | src/allmydata/dirnode.py:224-229 | a named link whose child survives reads back with that child and its updated metadata |
| `ModifierProofs.WithEntriesFrame` | src/allmydata/dirnode.py:207-228 | adding touches exactly the normalized names given |
| `ModifierProofs.OverwriteRespected` | src/allmydata/dirnode.py:215-222 | over a whole batch: without overwriting no named link existed and no name came twice; with only-files no directory is replaced |
| `ModifierProofs.NoWriteIsEnforced` | src/allmydata/dirnode.py:224-228 | a link marked "no-write" is made with a node that cannot be written through; `AddRefines` and `SetMetadataRefines` say it of what is read back |
| `ModifierProofs.TruthyIs` | src/allmydata/dirnode.py:175-226 | which values of "no-write" count as a mark |
| `ReaderViews.ImmutableViewIsSafe` | src/allmydata/dirnode.py:393-426 | whatever bytes an immutable directory holds, every child read from it is error-free, not known mutable and without a write cap |
| `CapabilityGraph.ImmutableThroughout` | src/allmydata/dirnode.py:390-426 | deep immutability: no path from an immutable directory leads to anything mutable or with a write cap, whatever is stored |
| `ReaderViews.ReaderWritesIff` | src/allmydata/dirnode.py:398-417 | whatever bytes a mutable directory holds, its reader gets a write cap for a child if and only if the read field of its entry is one |
| `ReaderViews.WriteCapInReadField` | src/allmydata/dirnode.py:398-417 | an entry for which that happens |
| `ModifierProofs.FreshRoundTrip` | src/allmydata/dirnode.py:246-312 | a new directory of surviving children, mutable or immutable, packs and reads back with the same names, nodes and metadata |
| `ReaderViews.FieldsAgreeIff` | src/allmydata/dirnode.py:398-417 | for any two cap fields: both views drop the entry or the reader sees what it should, if and only if a condition on the two strings holds |
| `ReaderViews.EntryAgreesIff` | src/allmydata/dirnode.py:389-426 | the same for the bytes of any entry, whoever wrote it, with the metadata that spoils a directory |
| `ReaderViews.AgreeingEntries` | src/allmydata/dirnode.py:374-432 | contents on each of whose entries the views agree are read alike as a whole |
| `ReaderViews.UnknownWriteStored` | src/allmydata/dirnode.py:402-417 | a surviving unknown child with a write cap is seen by readers as itself without that cap if and only if its read cap means nothing either |
| `ReaderViews.WrittenAgrees` | src/allmydata/dirnode.py:258-432 | whatever mixture of old links on which the views agree and of new ones is packed, they agree on the result if and only if the stored strings of each new child agree |
| `ReaderViews.StepAgrees` | src/allmydata/dirnode.py:130-230 | a modification of agreed contents keeps agreement if and only if the strings of what it links anew agree |
| `ReaderViews.HistoryAgrees` | src/allmydata/dirnode.py:130-230 | over any sequence of deleting, setting metadata and adding, succeeding or failing: readers and the writer agree after every step if and only if the strings of each link written anew agree |
| `ReaderViews.ReaderSeesReadonly` | src/allmydata/dirnode.py:385-422 | if every child ever linked is known, or without an unknown write cap, or with one beside a surviving read cap that means nothing: after every history a reader sees the names and metadata its writer sees, the read-only form of each known child, and no write cap |
| `ReaderViews.HiddenReadCap` | src/allmydata/dirnode.py:402-417 | an entry on which they disagree: a known read cap beside an unknown write cap |
| `ReaderViews.NameOnlyReadersSee` | src/allmydata/dirnode.py:402-426 | a child that creation returns; added to an empty directory, readers find its name and the writer does not |
| `ModifierProofs.MetadataRules` | src/allmydata/dirnode.py:84-123 | user metadata is replaced as a whole, system metadata cannot be set, the creation time never changes again |
| `ModifierProofs.FirstTimes` | src/allmydata/dirnode.py:96-121 | a link without a creation time gets its old "ctime" or now; updating fails exactly on system metadata that is no dictionary |
| `Traversal.Walk.SortChildren` | src/allmydata/dirnode.py:808-823 | every child is handed over, found before, or kept for later, and each new verify cap is noted once; unknown children, files and directories are each in the order of their names |
| `Traversal.Walk.TraverseChildren` | src/allmydata/dirnode.py:800-840 | what is reported while a directory is walked is exactly what was newly found, everything under one child before everything under the next |
| `Traversal.Walk.TraverseDirnode` | src/allmydata/dirnode.py:791-798 | the same for a directory and everything under it, with a decreasing measure |
| `Traversal.KidIsSmaller` | src/allmydata/dirnode.py:816-839 | entering a child directory finds a verify cap more or goes to a shorter literal |
| `Traversal.ReachedIsCovered` | src/allmydata/dirnode.py:745-768 | if the nodes for one object list alike, every known object that a path reaches is handed over |
| `Traversal.DeepTraverse` | src/allmydata/dirnode.py:745-789 | on every finite graph the walk ends; every path leads to its node, none comes twice, each is a link of a directory handed over; directories are entered at once with all children accounted for; no verify cap is reported twice; of two links to one object in a directory the second by name is not followed; below each directory everything under one child comes before everything under the next, unknown children before files before directories, each by name; an object is given in the directory that comes first of those linking to it; where objects agree, each one reachable is reported once |
| `WalkPaths.GivenInPathOrder` | src/allmydata/dirnode.py:770-840 | every walk hands things over in the order of their paths: a directory before what is below it, and where two paths part, by rank and name |
| `WalkPaths.GivenAtFirstLink` | src/allmydata/dirnode.py:810-823 | of all links to an object it is given under one from the directory handed over first, and there under the first name |
| `WalkPaths.GivenFirstIff` | src/allmydata/dirnode.py:810-840 | the path under which an object is given comes before that of another link if and only if that link is not at or below an earlier sibling of the object |
| `WalkPaths.FileGivenFirst` | src/allmydata/dirnode.py:810-840 | what is no directory is always given under the first of its paths |
| `WalkPaths.SharedFile` | src/allmydata/dirnode.py:810-840 | a file that directories "a" and "b" both link to as "f" is given as "a/f" |
| `WalkPaths.SiblingLinked` | src/allmydata/dirnode.py:810-840 | a directory linked as "a/x" and as "b" is given as "b", though "a/x" comes first |
| `Traversal.GivenPerLink` | src/allmydata/dirnode.py:812-818 | an object without a verify cap is handed over exactly once for each link from a directory that is |
| `Traversal.LiteralGivenTwice` | src/allmydata/dirnode.py:816-818 | a literal linked twice is handed over twice |
| `Traversal.CoverageFails` | src/allmydata/dirnode.py:817-819 | a directory that links to itself by a second cap which lists differently: what is only reached through that is never handed over |
| `Traversal.CoverageNeedsAgreement` | src/allmydata/dirnode.py:810-819 | whenever an object is reached through one cap of a directory and not through another, a root that links to both misses it |
| `CapabilityGraph.LiteralNestingIsFinite` | src/allmydata/uri.py:595-602 | literal objects linked from a literal directory are shorter than it |
| `CapabilityGraph.StoredGraph` | src/allmydata/dirnode.py:374-432 | whatever directories are stored, the nodes that unpacking them leads to make a finite graph of the kind the walk needs |
| `CapabilityGraph.AgreeingObjects` | src/allmydata/dirnode.py:374-432 | if readers and writers agree on each stored directory, nodes for one object list the same objects |
| `CapabilityGraph.AgreeingEntriesGrid` | src/allmydata/dirnode.py:374-432 | readers and writers agree on a grid if they agree on each stored entry |
| `CapabilityGraph.TraverseStored` | src/allmydata/dirnode.py:745-789 | the walk over stored directories always ends and, if readers and writers agree on each, misses nothing |
| `CapabilityGraph.StoredCoverageFails` | src/allmydata/dirnode.py:759-764 | stored contents on which no walk hands over a file that can be reached |
| `CapabilityGraph.DisagreementIsMissed` | src/allmydata/dirnode.py:759-764 | in any grid where the read cap of a directory leads to an object and its write cap does not, a root with both links misses that object |
| `CapabilityGraph.ViewsShareObjects` | src/allmydata/dirnode.py:759-764 | the writer's and the reader's node for a child are nodes for the same object |
| `RingPlacement.Server.Upload` | misc/simulators/ringsim.py:65-70 | a share is taken exactly when it leaves the server below capacity |
| `RingPlacement.ServersForSi` | misc/simulators/ringsim.py:106-114 | on a permuted ring the servers sorted by their key, on a flat one rotated to the first at or after the storage index; each server once |
| `RingPlacement.PermutedServers` | misc/simulators/ringsim.py:107-110 | the sorted order holds the same servers, each once |
| `RingPlacement.PlaceFile` | misc/simulators/ringsim.py:187-208 | the placement loop terminates; exactly n shares are placed on servers below capacity, or every server refuses this share size; nobody gets over one share more than a server that still has room, nor more than such a server before it; with room everywhere each gets n divided by the number of servers, the first ones one more |
| `RingPlacement.FirstServers` | misc/simulators/ringsim.py:192-208 | with room everywhere and no more shares than servers, exactly the first n servers get one share each |
| `RingPlacement.AskedUnderway` | misc/simulators/ringsim.py:192-208 | asking the next server keeps the invariant of the loop, whether it accepts or not |
| `RingPlacement.SpaceFollowsShares` | misc/simulators/ringsim.py:65-70 | conservation: the space used grows by the share size for each share placed |
| `RingPlacement.OrderIrrelevant` | misc/simulators/ringsim.py:106-114 | counts and space do not depend on the order of the servers |
| `RingPlacement.DoRun` | misc/simulators/ringsim.py:171-208 | the run always ends with a full grid; the number returned is the number of complete files; each file, with its own share size and its own order of servers, was placed as `PlaceFile` says |
| `Binomial.Factorial` | misc/operations_helpers/provisioning/provisioning.py:15-24 | the loop computes n! |
| `Binomial.ChooseFact` | misc/operations_helpers/provisioning/provisioning.py:26-39 | Pascal's triangle times k! (n-k)! is n! |
| `Binomial.DivisionIsExact` | misc/operations_helpers/provisioning/provisioning.py:35-38 | the numerator is the coefficient times the denominator, so the unchecked division is exact |
| `Binomial.ComputeBinomial` | misc/operations_helpers/provisioning/provisioning.py:26-39 | the result is the entry of Pascal's triangle and the remainder is zero |
| `Broker.StorageFarmBroker.constructor` | src/allmydata/storage_client.py:265-266 | a new broker satisfies the invariant |
| `Broker.StorageFarmBroker.WhenConnectedEnough` | src/allmydata/storage_client.py:380-389 | registering keeps the invariant: mark is the maximum seen, exactly the listeners above it wait, all others fired once |
| `Broker.StorageFarmBroker.StatusChanged` | src/allmydata/storage_client.py:409-411 | a connection change that is notified keeps the same invariant; a server counts as connected from a connection until it is lost |
| `Broker.StorageFarmBroker.ConnectionLost` | src/allmydata/storage_client.py:1088-1097 | a lost connection, which notifies nobody, takes that server off those connected and keeps it too: the mark is never below their number |
| `Broker.StorageFarmBroker.CheckConnectedHighWaterMark` | src/allmydata/storage_client.py:413-424 | the mark rises to the count if that is larger; satisfied listeners fire and the rest stay in order |
| `Broker.WaitingTwice` | src/allmydata/storage_client.py:413-424 | raising the mark in two steps fires and keeps the same listeners as in one |
| `Broker.WaitsOrFires` | src/allmydata/storage_client.py:418-424 | each registered listener waits or has fired, once in all, by its threshold |

## Left out

- CreateFromCap: for a CHK verify cap whose storage index is blacklisted the source's wrapper asserts and raises; the model returns a prohibited node.
- SetHashes: negative node numbers, which Python counts from the end of the list.
- UnpackContents: which exception aborts the unpacking is not distinguished.
- Attenuation: caps that are verify caps already, whose inherited `get_verify_cap` rewraps them in another class.
- DeepTraverse: cancellation, turn breaks, errors from the walker and directories that change during the walk; the walk is sequential over stable listings, and contents that cannot be retrieved or unpacked list nothing.
- PlaceFile: the two flags that only trigger progress messages.
- DoRun: N equal to 0 and share sizes of 0, for which the source never stops, since `PlaceFile` then reports no full grid.
- PermutedServers: which of two servers with equal hashes comes first.
- Factorial: negative arguments, which the source rejects by an assertion.
- `pack_children`, which only normalizes names before packing, and `set_uri`, `set_children`, `move_child_to` and the other wrappers around the modifiers.
- `wrap_dirnode_cap` and `get_filenode_cap`: a directory cap is `Dir` of its file cap, so that wrapping undoes unwrapping holds by construction.
- JSON texts for infinities and NaN.
- `depth_first` and `dump`, which only print a tree.
- AES, the hash functions, zfec, JSON, UTF-8 and NFC: function values with stated laws.
- The limit of 4300 digits that newer Python versions put on `int()`, and names that cannot be encoded as UTF-8.
- Networking, the storage protocols, uploads and downloads, the web front end, configuration, grid manager, statistics and the other simulators.
