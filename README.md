# A verified model of a de Bruijn genome assembler and read simulator

This project models the computational core of a small Python genome-assembly
toolkit in Dafny and proves properties of it. The toolkit has two scripts.

- `assemble.py` defines four functions, which the model takes one by one:
  - `get_kmers` cuts every read into k-mers;
  - `build_de_bruijn` builds a de Bruijn graph whose nodes are k-mer prefixes and suffixes and whose edges count k-mers;
  - the first loop of `collapse` picks out the edges that sit on unbranched chains;
  - `n50` scores a list of contigs by their N50.

  Its driver `assemble` (assemble.py:148-165) builds the graph but never calls `collapse`, and calls `n50` only on an empty contig list. The file as a whole does not compile: `range numNodes` at assemble.py:124 is a syntax error.
- `simulate.py` reads a reference sequence from a FASTA file (`parse_fasta`) and draws noisy reads from it (`simulate_reads`).

The model follows the code's own form, one module per concern:

- `Python` (python.dfy) holds the Python semantics the code relies on:
  - slicing with clamped and negative bounds (`s[i:j]`, `kmer[:-1]`);
  - negative indexing (`contigs[-1]`);
  - floor division (`//`);
  - the length of `range(n)`.
- `Kmers` (kmers.dfy): `get_kmers` is a method with nested loops. It is proved equal to a specification function, `AllKmers`, and the lemmas describe each k-mer's position and origin.
- `DeBruijn` (debruijn.dfy): `build_de_bruijn` is a method that grows a node list and an edge dictionary.
  - The Python dict is a `map` from index pairs to counters, plus its key insertion order. That order is the order in which later code iterates it.
  - The method is proved equal to a fold, `Build`. The lemmas prove what the graph means: distinct nodes in order of first appearance, edge counters equal to numbers of k-mers, and counters summing to the number of k-mers.
- `Collapse` (collapse.dfy): the loop that builds `colList` is a method. It is proved to select exactly the edges whose tail has one out-edge and whose head has one in-edge.
- `N50` (n50.dfy): `n50` is a method with its `while` loop. The score is proved to satisfy the usual N50 definition: contigs at least that long hold at least half of the total length, and strictly longer contigs hold less than half. That definition is shown to have at most one solution.
- `Simulate` (simulate.dfy): `simulate_reads` has its outer loop over reads as a method. Its inner loop over bases is a second method, `NoisyRead`.
  - The random draws are inputs. Each read gets the start position `randint` returned and, for each base, whether it was kept or which element `choice` picked. The float comparison `random() > error_rate` becomes that keep-or-substitute flag.
  - Python's `KeyError` (substituting a base that is not A, T, G or C) and `ZeroDivisionError` (read length 0) are `Err` results.
- `Fasta` (fasta.dfy): `parse_fasta` works on the file's lines. It is the join of `line.strip().upper()` over the lines that do not start with `>`.

## Model

| member | source | states |
|---|---|---|
| Python.Slice | assemble.py:59 | `s[i:j]` has at most len(s) elements, equals `s[i..j]` for in-range bounds, is empty when the bounds cross, and is always a contiguous piece of `s` |
| Python.FloorDiv | simulate.py:57 | `a // b` is the quotient rounded towards minus infinity: `q*b <= a < q*b + b` for b > 0, mirrored for b < 0 |
| Kmers.GetKmers | assemble.py:49-62 | the nested loops return exactly `AllKmers`: for each read in order, `read[i:i+k]` for i in `range(len(read)-k)` |
| Kmers.KmerCount | assemble.py:57-58 | the output holds sum over reads of max(0, len(read) - k) k-mers |
| Kmers.OffsetOrder | assemble.py:57-60 | all k-mers of an earlier read come before all k-mers of a later read |
| Kmers.KmerAt | assemble.py:57-60 | the k-mer of read r at offset i is at output position Offset(r) + i and equals `read[i:i+k]` |
| Kmers.KmerOrigin | assemble.py:57-60 | every output k-mer is `read[i:i+k]` for some read and some offset 0 <= i < len(read) - k |
| Kmers.KmerLength | assemble.py:59 | with k >= 0 every k-mer has exactly k characters |
| Kmers.LastWindowOmitted | assemble.py:58 | for a read with len >= k the output is all width-k windows except the last one: one window fewer than the read has |
| Kmers.NewlineTerminatedRead | assemble.py:58 | for a read that ends in a newline, the omitted window is the one holding the newline, so the k-mers are exactly all windows of the line's text |
| DeBruijn.Prefix | assemble.py:76 | `kmer[:-1]` is the k-mer without its last character (empty for an empty k-mer) |
| DeBruijn.Suffix | assemble.py:80 | `kmer[1:]` is the k-mer without its first character (empty for an empty k-mer) |
| DeBruijn.IndexOf | assemble.py:84-85 | `nodes.index(x)` is the first position holding x |
| DeBruijn.BuildDeBruijn | assemble.py:65-97 | the loop returns `Build(kmers)`. Nodes are distinct and in first-appearance order. Every edge's counter is the number of k-mers between its endpoints. The key order lists each key once. The counters sum to len(kmers) |
| DeBruijn.BuildSound | assemble.py:72-90 | the fold keeps every invariant above after every k-mer: node set, order, counters, completeness, keys and sum |
| DeBruijn.EndpointsMeaning | assemble.py:76-82 | a string is among the collected endpoints iff it is the prefix or suffix of some k-mer |
| DeBruijn.CountMeaning | assemble.py:87-90 | the number of k-mers with prefix a and suffix b is positive iff such a k-mer exists |
| DeBruijn.NodesAreFirstAppearances | assemble.py:76-82 | `nodes` has no duplicates, lists prefixes and suffixes in order of first appearance, and holds exactly the prefixes and suffixes of the k-mers |
| DeBruijn.NodeLength | assemble.py:76-82 | when all k-mers have length k >= 1, every node has length k - 1 |
| DeBruijn.EdgesCountKmers | assemble.py:84-90 | every edge key indexes two nodes, its counter is the number of k-mers with that prefix and suffix (at least 1), and some k-mer has them |
| DeBruijn.EveryKmerHasEdge | assemble.py:84-90 | every k-mer's prefix and suffix are nodes and the edge between their positions exists |
| DeBruijn.WeightsSumToKmerCount | assemble.py:87-90 | the dict's iteration order lists each key exactly once and the counters add up to len(kmers) |
| DeBruijn.EdgeKeysInRange | assemble.py:84-88 | both positions of every edge key are valid node positions |
| Collapse.SelectChainEdges | assemble.py:116-127 | the loop returns `Selected`. An edge is in `colList` iff it is a key and the loop's two counts (out-edges of x, in-edges of y among positions below numNodes) are both 1. Keys keep the dict's iteration order |
| Collapse.SelectedMeaning | assemble.py:123-127 | membership in the selection is exactly "a key with both counts equal to 1" |
| Collapse.OutDegreeCounts | assemble.py:124 | `sum(1 for k in range(n) if (x, k) in edges)` is the number of k < n with (x, k) an edge |
| Collapse.InDegreeCounts | assemble.py:125 | `sum(1 for k in range(n) if (k, y) in edges)` is the number of k < n with (k, y) an edge |
| Collapse.DegreesAreTrue | assemble.py:124-125 | when every key indexes a node below n, the two sums are the true out-degree of x and in-degree of y |
| Collapse.SelectsUniqueLinks | assemble.py:123-127 | on the graph `build_de_bruijn` returns, `colList` holds exactly the edges whose tail has one out-neighbour and whose head has one in-neighbour |
| N50.InsertSorted | assemble.py:37 | inserting into a descending list keeps it descending and adds exactly the inserted element |
| N50.SortDescSorted | assemble.py:37 | `sorted(..., key=len, reverse=True)` on the lengths gives a descending permutation of them |
| N50.SortedTotal | assemble.py:37-38 | sorting does not change the total length |
| N50.N50 | assemble.py:27-46 | no contigs gives 0. Otherwise the score is some contig's length: the one at the first position where the running sum of sorted lengths reaches half the total. It is the N50 in its usual form (`IsN50`) |
| N50.LoopExit | assemble.py:40-46 | when the loop stops, the length at `index` is a contig length, sits at the halfway position, and is the N50 |
| N50.HalfwayScore | assemble.py:40-46 | the loop's exit condition and invariant place `index` at the first position whose running sum reaches half; index -1 only when the total is 0 |
| N50.HalfwayIsN50 | assemble.py:40-46 | the length at the halfway position of the sorted lengths satisfies the usual N50 definition |
| N50.ClassicN50AtLeast | assemble.py:42-46 | contigs at least as long as the score hold at least half of the total length |
| N50.ClassicN50Above | assemble.py:42-46 | with a positive total, contigs strictly longer than the score hold less than half of it |
| N50.ClassicN50Zero | assemble.py:40-46 | with a zero total the score is 0 |
| N50.N50Unique | assemble.py:27-46 | the usual N50 definition has at most one solution, so the score does not depend on how ties are sorted |
| N50.SumAtLeastSorted | assemble.py:37-38 | the sum of the lengths at least t is the same before and after sorting |
| N50.SumAtLeastMonotone | assemble.py:42 | raising the threshold never increases the sum of the lengths that meet it |
| Simulate.ReplacementTable | simulate.py:51-52 | `replacement` maps A, T, G, C and nothing else: A to T, G, C; T to A, G, C; G to A, T, C; C to A, T, G |
| Simulate.ReplacementOthers | simulate.py:51-52 | a base is a key iff it is a nucleotide. Its list has three elements, never the base itself, and holds exactly the other nucleotides |
| Simulate.WithoutMembers | simulate.py:52 | `[y for y in s if y != x]` keeps exactly the elements of s other than x |
| Simulate.Clean | simulate.py:58-59 | with 0 <= start < g and read_length >= 1 the clean read is `sequence[start:min(start+read_length, g)]`, 1 to read_length bases long. It is always a substring of the sequence |
| Simulate.SimulateReads | simulate.py:40-69 | read length 0 raises ZeroDivisionError. Otherwise the result is the simulation of the draws. A success holds `ReadCount` reads: `coverage * g // read_length` when that is positive, and none otherwise, since `range` of a negative number is empty. An empty sequence gives no reads |
| Simulate.NoisyRead | simulate.py:62-67 | the inner loop returns the base-by-base mutation of the clean read, or the KeyError of the first failing base |
| Simulate.SimulatedStep | simulate.py:57-67 | one more draw appends its noisy read, or ends the simulation with that read's KeyError |
| Simulate.SimErrorPersists | simulate.py:57-67 | a KeyError in one read is the result of the whole simulation |
| Simulate.ErrorPersists | simulate.py:63-65 | a KeyError at one base is the result for the whole read |
| Simulate.SimulatedShape | simulate.py:55-69 | a successful simulation has one read per draw, the i-th being the mutation of the i-th clean read |
| Simulate.NoReadsFromEmpty | simulate.py:55-57 | an empty sequence gives a read count of 0 for every coverage and non-zero read length |
| Simulate.NoisyBaseMeaning | simulate.py:64-65 | a kept base is unchanged. A substituted nucleotide becomes a different nucleotide. Substitution fails with KeyError(base) exactly when the base is not a nucleotide |
| Simulate.MutatePrefixOk | simulate.py:63-65 | after j bases the noisy prefix has j bases, each the noisy version of the clean base at that position |
| Simulate.MutatePrefixErr | simulate.py:63-65 | the inner loop fails iff some base fails, and then with the first failing base's error |
| Simulate.MutateMeaning | simulate.py:63-65 | mutation fails iff some substituted base is not a nucleotide, with that base's KeyError. A success keeps the length and changes exactly the substituted positions, each into another nucleotide |
| Simulate.SimulationFails | simulate.py:57-67 | the simulation fails iff the mutation of some read fails |
| Simulate.ReadFollowsSequence | simulate.py:58-67 | a noisy read is 1 to read_length bases from its start. It differs from the sequence exactly at its substituted positions, which hold nucleotides |
| Simulate.ReadsFollowSequence | simulate.py:55-69 | with read_length >= 1 every read of a successful simulation follows the sequence in that way |
| Fasta.StripLeftRemovesSpace | simulate.py:35 | `lstrip` leaves a suffix that is empty or starts with a non-space, and removes only whitespace |
| Fasta.StripRightRemovesSpace | simulate.py:35 | `rstrip` leaves a prefix that is empty or ends with a non-space, and removes only whitespace |
| Fasta.StripMeaning | simulate.py:35 | `line.strip()` is the contiguous stretch of the line between leading and trailing whitespace. It neither starts nor ends with whitespace, and it is empty only for an all-whitespace line |
| Fasta.StripIdempotent | simulate.py:35 | stripping twice is stripping once |
| Fasta.UpperMeaning | simulate.py:35 | upper-casing keeps the length, changes exactly the lower-case letters, leaves none behind, and is idempotent |
| Fasta.UpperPointwise | simulate.py:35 | each character is upper-cased in place |
| Fasta.JoinAppend | simulate.py:35 | `''.join` of two lists of parts, one after the other, is the join of the first followed by the join of the second |
| Fasta.CleanedAppend | simulate.py:35-36 | the generator over two line lists yields the first list's parts, then the second's |
| Fasta.CleanedSingle | simulate.py:35-36 | one line yields its stripped upper-cased text, or nothing if it starts with `>` |
| Fasta.CleanedParts | simulate.py:35-36 | every yielded part is the cleaned text of a line that does not start with `>` |
| Fasta.JoinMember | simulate.py:35 | every character of a join comes from one of its parts |
| Fasta.ParseFastaAppend | simulate.py:34-36 | parsing a concatenation of line lists gives the two parses concatenated |
| Fasta.ParseFastaLine | simulate.py:34-36 | a single line parses to its stripped upper-cased text, or to nothing if it starts with `>` |
| Fasta.HeadersIgnored | simulate.py:36 | a header line contributes nothing wherever it occurs |
| Fasta.PartOrigin | simulate.py:34-36 | every character of the parse comes from the cleaned text of a non-header line |
| Fasta.ParsedIsUpper | simulate.py:35 | the parsed sequence holds no lower-case letter |
| Fasta.LineHasNoNewline | simulate.py:35 | a line whose only possible newline is its last character cleans to text with no newline |
| Fasta.ParsedHasNoNewline | simulate.py:34-35 | for lines as `readlines()` returns them (a newline only at the end), the parsed sequence holds no newline |

## Window count and syntax

- A read of length L has L - k + 1 windows of width k. `get_kmers` loops over `range(len(read) - k)`, so it emits only the first L - k of them (`Kmers.LastWindowOmitted`), and a read shorter than k + 1 gives nothing.
- `Kmers.NewlineTerminatedRead` shows that for a read ending in a newline the omitted window is the one holding the newline. `readlines()` (assemble.py:173-174) ends every line with a newline except a last line without one. simulate.py writes its reads with `'\n'.join` (simulate.py:92-94), so the final read of its file has no newline, and `get_kmers` drops a real k-mer from it.
- `range numNodes` at assemble.py:124 is a syntax error that stops the whole of assemble.py from compiling. The model of the `collapse` loop reads it as `range(numNodes)`.

## Left out

- `write_dot` (assemble.py:100-114) and its call at assemble.py:95 write a Graphviz file. That is file I/O with no effect on the returned graph.
- The rest of `collapse` (assemble.py:129 onwards) is not modelled. It merges nodes through string and tuple operations that cannot run as written (`pair[0] + pair[:-1]` adds an int to a tuple), so it has no behaviour to model.
- `assemble` (assemble.py:148-165) is a TODO around calls to the modelled functions, a `print` of the N50 of an empty list, and a write of contigs.txt. It is printing and file I/O.
- `error`, `main` and the argument handling in both scripts are command-line parsing, printing and `exit`.
- `parse_fasta`'s file opening and its `FileNotFoundError` path are file I/O. The model takes the file's lines.
- The random number generator is not modelled. `randint`, `random` and `choice` enter `Simulate.SimulateReads` as the draws. Its precondition says only what those calls can return:
  - one draw per read;
  - a start in 0..g-1;
  - one base draw per clean base;
  - a choice index below 3.
- `error_rate` and the float comparison `random() > error_rate` are replaced by the per-base keep or substitute flag. Floating point is not modelled.
- N50.N50: `sorted(contigs, key=len, reverse=True)` is modelled by sorting the contig lengths, since `n50` only reads lengths. Which of several equally long contigs comes first is not modelled; `N50.N50Unique` shows the score does not depend on it.
- Fasta.Upper: upper-cases only the ASCII letters a-z. Python's `str.upper` also maps other letters and can lengthen a string (for example 'ß' to 'SS').
- Fasta.StripLeft: strips the characters Python's `str.isspace` accepts in the Basic Multilingual Plane listing used here (ASCII whitespace, the separators 0x1C-0x1F, 0x85, 0xA0 and the Unicode space characters). It is not derived from a Unicode database.
