# Photo slideshow: a verified model of the slide builder and its optimisation model

The repository has two scripts. Each builds a photo slideshow with a mixed-integer solver.

- `slideshow.py` reads photos from a text file. It builds every candidate slide: one per horizontal photo, one per unordered pair of vertical photos. It then sets up a selection-and-ordering model with transition variables and big-M position constraints. From the solver's assignment it extracts the used slides, sorted by position, and writes them to a solution file.
- `Projet.py` reads the same file format with `readline`. It builds the same slide list using `itertools.combinations` and a test that drops self-pairs. It indexes every photo to the slides that show it (`photo_usage`) and constrains each photo to at most one selected slide. It maximises the interest summed over every pair of selected slides, then writes the selected slides.

This Dafny project models those computations. The solver is not modelled. The constraints are predicates over an assignment given as input, and the objective is a function of a 0/1 selection.

Modules:

- `Text` (text.dfy): the Python primitives the scripts rely on. These are `str.split()` with Python's white-space set, `int()` on a token, `str()` of a natural number, `' '.join` and slicing with Python's clamping.
- `Scoring` (scoring.dfy): the score `min(|A∩B|, |A−B|, |B−A|)` on tag sets. It is shared by `transition_score` and `interest_score`.
- `Slides` (slides.dfy): the slide value, Python's list ordering on slides, the candidate enumeration, selection by a 0/1 vector, and photo-disjointness.
- `Slideshow` (slideshow.dfy): `read_input`, `transition_score`, slide building, the constraints of `solve_slideshow` over an assignment, and the extraction with its in-place sort.
- `Projet` (projet.dfy): `load_data`, the slide list, the `photo_usage` dictionary and its constraints, and the pairwise objective.
- `Output` (output.dfy): the solution file both scripts write, and a reader for it used to prove the round trip.

Behaviour of the two scripts worth knowing:

- `slideshow.py` keeps a photo's tags as the list read, duplicates included. Only pair slides are deduplicated, through `list(set(...))`.
- Neither script checks the tag count. `read_input` slices `parts[2:2+count]` with Python's clamping, and `load_data` ignores the count token.
- An orientation other than `H` or `V` is not an error. That photo simply belongs to no slide.
- The extraction does not check the chain or look for repeated photos. It sorts `(position, slide)` tuples, so equal positions are ordered by the slide lists.
- Line 69 of `slideshow.py` requires at least one used slide, so an input with no candidate slide has no feasible assignment.

## Model

| member | source | states |
|---|---|---|
| Text.IsSpace | slideshow.py:16 | The white-space set of `str.isspace()`, which `strip()` and `split()` at slideshow.py:16 and Projet.py:9 cut on: ASCII tab to carriage return, the file/group/record/unit separators, space, NEL, NBSP and the Unicode space and line/paragraph separators; `Text.Split` uses it and its lemmas show tokens hold none of these characters |
| Text.Split | slideshow.py:16 | `line.strip().split()` returns tokens only: each is non-empty and holds no white space |
| Text.Join | slideshow.py:123 | `' '.join(...)` at slideshow.py:123 and Projet.py:80: the tokens in order with one separator between neighbours, nothing before the first or after the last; `Text.SplitJoin` shows splitting the result gives the tokens back |
| Text.SplitJoin | slideshow.py:123 | splitting tokens joined by single spaces and ended by a newline gives the tokens back |
| Text.ParseIntLine | slideshow.py:11 | `int(line.strip())` as used for the photo count (also `Projet.py` line 6): the stripped line must be a single integer token, otherwise ValueError (`None`); `Output.CountLineParses` shows a written count line reads back |
| Text.ParseInt | slideshow.py:18 | `int()` accepts only non-empty tokens, and one starting with a digit gives a non-negative value |
| Text.ParseIntNatToString | slideshow.py:121 | `int(str(n)) == n`, and `str(n)` is a single token |
| Text.DigitsValueOfNatToString | slideshow.py:121 | the decimal digits written by `str(n)` have value n |
| Text.NatToString | slideshow.py:121 | `str(n)` is non-empty, all decimal digits, with no leading zero unless n is 0 |
| Text.PySlice | slideshow.py:19 | `parts[2:2+count]` is a contiguous run of `parts` starting at the clamped start, and no longer than a non-negative stop |
| Text.PySliceInRange | slideshow.py:19 | with bounds inside the list, the Python slice is the plain sub-sequence |
| Slideshow.PhotoLine | slideshow.py:16-20 | a photo line succeeds exactly when it has at least two tokens and the second parses as an integer; otherwise it raises IndexError when there are fewer than two tokens and ValueError when the count is not an integer; the photo gets index i − 1 |
| Slideshow.LineResult | slideshow.py:15-16 | The outcome of reading photo line `i` of the file (1 <= i): `lines[i]` raises IndexError when the file has no line `i`, otherwise the line is parsed by `PhotoLine`; `ReadInput` is stated against it line by line |
| Slideshow.PhotoLineTags | slideshow.py:16-19 | the orientation is the first token; for a non-negative count the tags are exactly `count` tokens after the count when the line has them, else all remaining tokens; for a count below −2 the slice stop counts from the end, dropping the last −(2 + count) tokens, and a count of −1 or −2 gives no tags |
| Slideshow.ReadInput | slideshow.py:6-22 | an empty file raises IndexError and a bad first line ValueError; on success there are max(n, 0) photos, the i-th coming from line i; on failure the error is that of the first failing line |
| Slideshow.ReadInputIndices | slideshow.py:20 | every photo read carries its position in the list as index |
| Scoring.TagSetSize | slideshow.py:26-27 | a tag list has at least as many entries as distinct tags |
| Scoring.TagSetConcat | slideshow.py:54 | the set of a concatenation is the union of the two sets |
| Scoring.Interest | Projet.py:15-19 | `interest_score`: the minimum of the common, only-in-first and only-in-second tag counts; its meaning is stated by `Scoring.InterestBounds`, `Scoring.InterestPositive` and the lemmas beside them |
| Scoring.InterestSymmetric | Projet.py:15-19 | `interest_score(A, B) == interest_score(B, A)` |
| Scoring.InterestBounds | Projet.py:16-19 | the score is at most each of the common count and the two unique counts, and equals one of them |
| Scoring.InterestAtMostHalf | Projet.py:16-19 | a score of k needs at least 2k tags on each side |
| Scoring.InterestDisjoint | Projet.py:16-19 | tag sets sharing nothing score 0 |
| Scoring.InterestNested | Projet.py:16-19 | when one tag set contains the other, the score is 0 |
| Scoring.InterestPositive | Projet.py:16-19 | the score is positive exactly when the sets share a tag and each has a tag the other lacks |
| Scoring.SplitCardinality | Projet.py:16-17 | the size of A is the size of A∩B plus the size of A−B |
| Slideshow.TransitionScore | slideshow.py:25-31 | `transition_score`: both tag lists are turned into sets, then scored as `interest_score` does; its properties are the `Slideshow.TransitionScore*` lemmas below |
| Slideshow.TransitionScoreSymmetric | slideshow.py:25-31 | `transition_score(A, B) == transition_score(B, A)` for all tag lists |
| Slideshow.TransitionScoreZero | slideshow.py:28-31 | the score is 0 when the lists share no tag or one list's tags all occur in the other |
| Slideshow.TransitionScoreSelf | slideshow.py:25-31 | a tag list scored against itself gives 0 |
| Slideshow.TransitionScoreBounds | slideshow.py:28-31 | the score is at most the common and unique counts, and at most half of either list's length |
| Slideshow.TransitionScoreIgnoresDuplicates | slideshow.py:26-27 | repeating a tag, or permuting a list, does not change the score |
| Slides.IndicesOf | slideshow.py:38-39 | the filtered indices are exactly the photos of that orientation, increasing |
| Slides.Singles | slideshow.py:46-48 | one single slide per horizontal photo, in input order; entry by entry as the comprehension builds it, with its properties in the `Slides.Candidates*` lemmas |
| Slides.Row | slideshow.py:52-53 | row i holds the pairs `(vs[i], vs[j])` for every j > i, in order; entry by entry as the comprehension builds it, with its properties in the `Slides.Pairs*` and `Slides.Candidates*` lemmas |
| Slides.PairsUpTo | slideshow.py:51-53 | The slides the nested loop has added after its first `i` outer iterations: the rows `Pair(vs[k], vs[l])`, k < i and l > k, in loop order; `PairsUpToCount`, `PairsUpToShape`, `PairsUpToComplete` and `PairsUpToOrdered` give its size, shape, completeness and order |
| Slides.Pairs | slideshow.py:51-53 | Every pair `(vs[i], vs[j])` with i < j, in the order of the loops at slideshow.py:51-53, which is also the order of `combinations(vertical_photos, 2)` at Projet.py:34; `PairsCount`, `PairsShape`, `PairsComplete` and `PairsOrdered` state it holds n(n-1)/2 pairs, each pair of positions once, in that order |
| Slides.PairsUpToCount | slideshow.py:51-53 | the first i rows hold i(2V − 1 − i)/2 pairs |
| Slides.PairsCount | slideshow.py:51-53 | V vertical photos give V(V − 1)/2 pairs |
| Slides.PairsUpToShape | slideshow.py:51-53 | every pair of the first i rows is `(vs[a], vs[b])` with a < b and a < i |
| Slides.PairsShape | slideshow.py:51-53 | every pair is `(vs[a], vs[b])` for positions a < b |
| Slides.PairsUpToComplete | slideshow.py:51-53 | every pair of positions a < b with a < i appears in the first i rows |
| Slides.PairsComplete | slideshow.py:51-53 | every pair of positions a < b is enumerated |
| Slides.PairsUpToOrdered | slideshow.py:51-53 | over increasing ids, the first i rows are strictly increasing in Python's list order |
| Slides.PairsOrdered | slideshow.py:51-53 | the pairs come in strictly increasing lexicographic order, so none repeats |
| Slides.Orientations | slideshow.py:38-39 | the orientation of each photo in input order, one per photo; both scripts filter on it (`Projet.py` lines 26-27) |
| Slides.Candidates | slideshow.py:38-53 | the candidate slides both scripts build: singles of the horizontal photos, then every vertical pair i < j; its count, shape, completeness and distinctness are the `Slides.Candidates*` lemmas |
| Slides.CandidatesCount | slideshow.py:38-53 | there are \|H\| + V(V − 1)/2 candidate slides |
| Slides.CandidatesShape | slideshow.py:38-53 | a single holds a horizontal photo; a pair holds two vertical photos, first < second |
| Slides.CandidatesComplete | slideshow.py:38-53 | every horizontal photo has its single and every pair i < j of vertical photos its pair slide |
| Slides.CandidatesDistinct | slideshow.py:38-53 | no candidate is generated twice |
| Slides.CandidatesMembersBelow | slideshow.py:63-66 | candidates only show photos of the input, so the per-photo constraints cover all their photos |
| Slideshow.Dedup | slideshow.py:54 | `list(set(ts))` has the same tag set as ts and no duplicates |
| Slideshow.SlideTags | slideshow.py:48-54 | `slide_tags[k]`: a single keeps its photo's tag list as read; a pair gets `list(set(...))` of its two lists, characterised by `Slideshow.PairTagsUnion` |
| Slideshow.PairTagsUnion | slideshow.py:54 | a pair slide's tag list is the union of its two photos' tags, each tag once |
| Slideshow.BuildSlides | slideshow.py:42-55 | the loops produce exactly the candidate list: singles of the horizontal photos, then every vertical pair i < j; `slide_tags[k]` belongs to `slides[k]` |
| Slideshow.AppendPairSlides | slideshow.py:51-55 | the nested loops append exactly the pair enumeration, with each pair's merged tags |
| Slideshow.Feasible | slideshow.py:58-85 | the assignment satisfies every constraint `solve_slideshow` adds: the conjunction of the seven predicates below; what it implies is stated by `Slideshow.PhotoUsedOnceIffDisjoint`, `Slideshow.AtMostOneSuccessor`, `Slideshow.AtMostOnePredecessor`, `Slideshow.UnusedSlideIsolated` and `Slideshow.PathIsSimple` |
| Slideshow.Shaped | slideshow.py:58-60 | one `x` and one `pos` variable per slide and an n × n matrix of `y` variables |
| Slideshow.PositionsInDomain | slideshow.py:60 | every `pos` variable takes the solver's default lower bound 0 |
| Slideshow.PhotoUsedOnce | slideshow.py:63-66 | for every photo index below `len(photos)`, at most one used slide contains it |
| Slideshow.SomeSlideUsed | slideshow.py:69 | at least one slide is used |
| Slideshow.EdgesJoinUsedSlides | slideshow.py:72-77 | for i ≠ j, `y[i][j]` set implies both slides are used |
| Slideshow.PositionsFollowEdges | slideshow.py:72-80 | for i ≠ j, `pos[j] >= pos[i] + 1 - len(slides) * (1 - y[i][j])` |
| Slideshow.DegreesBounded | slideshow.py:83-85 | each slide has at most `x[i]` active transitions out and at most `x[i]` in, self-transitions excluded |
| Slideshow.UsesOf | slideshow.py:65 | term s of the per-photo sum is 1 exactly when slide s is used and contains the photo; entry by entry as the comprehension builds it, with its meaning in `Slideshow.PhotoUsedOnceIffDisjoint` |
| Slideshow.Successors | slideshow.py:84 | term j of the out-degree sum is `y[i][j]` for j ≠ i; entry by entry, with its meaning in `Slideshow.AtMostOneSuccessor` |
| Slideshow.Predecessors | slideshow.py:85 | term j of the in-degree sum is `y[j][i]` for j ≠ i; entry by entry, with its meaning in `Slideshow.AtMostOnePredecessor` |
| Slides.CountTrue | slideshow.py:65 | The value of `quicksum` (and `x.sum()` at slideshow.py:69, the degree sums at slideshow.py:84-85) over 0/1 variables: the number of set flags; `CountTrueBound`, `CountTrueTwo` and `CountTrueTwoWitness` state it is at most the length, zero exactly when no flag is set, and at least two exactly when two distinct flags are set |
| Slides.CountTrueBound | slideshow.py:65 | a 0/1 sum is at most the number of terms, and 0 exactly when no term is 1 |
| Slides.CountTrueTwo | slideshow.py:65 | two distinct true terms make the sum at least 2 |
| Slides.CountTrueTwoWitness | slideshow.py:65 | a sum of at least 2 has two distinct true terms |
| Slideshow.PhotoUsedOnceIffDisjoint | slideshow.py:63-66 | the per-photo constraints hold exactly when no two used slides share a photo |
| Slideshow.AtMostOneSuccessor | slideshow.py:84 | in a feasible assignment two active transitions out of a slide end at the same slide |
| Slideshow.AtMostOnePredecessor | slideshow.py:85 | in a feasible assignment two active transitions into a slide start at the same slide |
| Slideshow.UnusedSlideIsolated | slideshow.py:76-77 | an unused slide has no active transition in or out |
| Slideshow.PathRaisesPosition | slideshow.py:80 | along a walk of active transitions the position rises by at least one per step |
| Slideshow.EdgeRaisesPosition | slideshow.py:80 | an active transition u → v forces `pos[v] >= pos[u] + 1` |
| Slideshow.PositionRisesAlongPath | slideshow.py:80 | a later slide on a walk has a strictly greater position |
| Slideshow.PathIsSimple | slideshow.py:80 | active transitions never close a cycle: a walk's slides are pairwise distinct |
| Slides.SeqLess | slideshow.py:106 | Python `<` on two lists of photo ids, which `sort()` falls back to when positions tie: lexicographic, a proper prefix first; `SeqLessIrreflexive`, `SeqLessTransitive` and `SeqLessTotal` show it is a strict total order |
| Slides.SlideLess | slideshow.py:106 | Python `<` on two slides, i.e. `SeqLess` on their id lists |
| Slides.SeqLessIrreflexive | slideshow.py:106 | no slide list is less than itself |
| Slides.SeqLessTransitive | slideshow.py:106 | Python's list order is transitive |
| Slides.SeqLessTotal | slideshow.py:106 | any two slide lists are equal or comparable |
| Slideshow.EntryLess | slideshow.py:106 | Python `<` on the tuples `(pos[i].x, slides[i])`: the smaller position first, ties broken by `SlideLess`; `EntryLessTotal` shows any two distinct tuples are ordered one way |
| Slideshow.EntryLe | slideshow.py:106 | Python `<=` on those tuples: equal or `EntryLess`; `EntryLeTransitive` and `EntryLeAntisymmetric` show it is a total order |
| Slideshow.EntryLessTotal | slideshow.py:106 | any two `(position, slide)` tuples are equal or comparable |
| Slideshow.EntryLeTransitive | slideshow.py:106 | the tuple order is transitive |
| Slideshow.EntryLeAntisymmetric | slideshow.py:106 | tuples each at most the other are equal |
| Slideshow.Sorted | slideshow.py:106 | The order `list.sort()` leaves: each tuple is at most the next; `SortedPairwise` extends this to every pair k < l and `SortedUnique` shows a sorted arrangement of a multiset is unique |
| Slideshow.SortedPairwise | slideshow.py:106 | ordered neighbour by neighbour means ordered pair by pair |
| Slideshow.SortedUnique | slideshow.py:106 | two sorted arrangements of the same tuples are equal, so any correct sort gives the same result |
| Slideshow.Swap | slideshow.py:106 | two array cells are exchanged, all others unchanged, and the contents are a permutation of the old |
| Slideshow.InsertAt | slideshow.py:106 | with a sorted prefix `a[..i]`, afterwards `a[..i+1]` is sorted, the cells after i are unchanged, and the array is a permutation of the old |
| Slideshow.SortEntries | slideshow.py:106 | `selected_slides.sort()` leaves the array sorted and a permutation of its old contents |
| Slideshow.EntriesOf | slideshow.py:103 | entry i is `(pos[i], slides[i])`; entry by entry, with its meaning in `Slideshow.ExtractShow` |
| Slideshow.ShownSlides | slideshow.py:107 | the show keeps the slide of each sorted tuple, in order; entry by entry, with its meaning in `Slideshow.ExtractShow` and `Slideshow.ShowHoldsUsedSlides` |
| Slideshow.ExtractShow | slideshow.py:100-107 | the show is the slide part of a sorted permutation of the `(pos[i], slides[i])` of the used slides |
| Slideshow.ShowHoldsUsedSlides | slideshow.py:100-107 | a slide is in the show exactly when some used slide is that slide |
| Slideshow.SelectKeepsDisjoint | slideshow.py:101-103 | keeping the used `(pos, slide)` tuples of a list whose used slides share no photo gives a list in which no two tuples share a photo |
| Slideshow.PermutationKeepsDisjoint | slideshow.py:106 | sorting (any rearrangement with the same multiset) keeps the tuples photo-disjoint |
| Slideshow.ShowRepeatsNoPhoto | slideshow.py:63-107 | for a feasible assignment, no photo appears in two slides of the extracted show |
| Slides.Select | Projet.py:73 | the selected slides are no more than all slides, and each is one of them |
| Slides.SelectMembership | Projet.py:73 | a slide is selected exactly when some i with `x[i]` true holds it |
| Slides.SelectCount | Projet.py:73 | the selection has as many slides as x has true entries |
| Projet.LineAt | Projet.py:6-9 | What the k-th `f.readline()` returns: line k of the file, or "" once the file is exhausted, so a short file yields empty lines rather than an error |
| Projet.RecordLine | Projet.py:9-12 | a photo line fails with IndexError exactly when it is blank; otherwise photo i gets id i and its first token as orientation |
| Projet.RecordTags | Projet.py:11 | a tag belongs to the record exactly when it is some token after the second |
| Projet.LoadData | Projet.py:4-13 | a bad first line raises ValueError; on success there are max(n, 0) records, record i from line i + 1 (`""` past the end); on failure the error is that of the first failing line |
| Projet.LoadDataIds | Projet.py:8-12 | the records are numbered by their position |
| Projet.RecordOfWrittenLine | Projet.py:9-11 | a line written as orientation, count and tags reads back as that orientation and the set of the tags, whatever the count says |
| Projet.IdsWith | Projet.py:26-27 | filtering keeps at most all the photos |
| Projet.IdsWithIndices | Projet.py:26-27 | with ids equal to positions, the filtered ids are the positions of that orientation |
| Projet.DropSelfPairs | Projet.py:35 | the filter never makes the list longer; that it keeps exactly the pairs of distinct photos is stated by `Projet.DropSelfPairsMembership` |
| Projet.DropSelfPairsMembership | Projet.py:34-36 | a slide is kept exactly when it is in the input and is not a self-pair |
| Projet.DropSelfPairsConcat | Projet.py:34-36 | filtering a concatenation filters each part |
| Projet.DropSelfPairsNone | Projet.py:35 | without self-pairs nothing is dropped |
| Projet.AppendRow | Projet.py:34-36 | one row of `combinations` appends exactly that row's pairs that pass the test |
| Projet.SlideList | Projet.py:26-36 | the list `create_model` builds: `(id,)` per horizontal record, then the `combinations` pairs of vertical records with distinct ids; `Projet.SlideListIsCandidates` ties it to `Slides.Candidates` |
| Projet.CreateSlides | Projet.py:30-36 | the slide list is the singles of the horizontal ids, then the `combinations` pairs with distinct ids |
| Projet.SlideListIsCandidates | Projet.py:26-36 | for loaded records the list is the candidate list of `slideshow.py`, with no pair dropped |
| Projet.SlideListInRange | Projet.py:57-58 | every slide names existing photos, so the lookups `photos[p]` are in range |
| Projet.Usage | Projet.py:42-47 | the value of `photo_usage.get(p, [])` after the loops: the indices of the slides showing p, in order; characterised by `Projet.UsageMembership`, `Projet.UsageIncreasing` and `Projet.UsageBound` |
| Projet.Hits | Projet.py:44-47 | What the inner loop at Projet.py:44-47 appends to `photo_usage[p]` for slide `i`: `i` once per member equal to `p`, never more entries than members; `HitsMembership` and `HitsAtMostOne` state it lists `i` exactly when `p` is on the slide, and at most once when the slide's two photos differ |
| Projet.HitsMembership | Projet.py:44-47 | a slide's photos add index i to photo p's list exactly when p is among them, and only i |
| Projet.UsageBound | Projet.py:43-47 | every listed index is a slide index |
| Projet.UsageMembership | Projet.py:43-47 | `photo_usage[p]` lists slide i exactly when slide i shows p |
| Projet.UsageIncreasing | Projet.py:43-47 | without self-pairs each photo's list is strictly increasing |
| Projet.HitsAtMostOne | Projet.py:44-47 | a slide that does not repeat a photo is listed at most once for it |
| Projet.AppendIndex | Projet.py:45-47 | the photo's list, created empty if missing, gains slide i at its end; nothing else changes |
| Projet.AppendKeys | Projet.py:45-47 | after an append every key still holds a non-empty list |
| Projet.AppendValues | Projet.py:44-47 | one append extends the index by exactly that photo's hit |
| Projet.AddSlide | Projet.py:44-47 | the inner loop appends slide i once to the list of each of its photos, keeping every key non-empty |
| Projet.PhotoUsage | Projet.py:42-47 | after the loops a photo has a key exactly when some slide shows it, and its list is the indices of those slides in order |
| Projet.UsageConstraints | Projet.py:49-50 | for every photo with a key, its listed indices are slide indices and at most one of them is selected; `Projet.UsageConstraintsIffDisjoint` gives its meaning |
| Projet.SumAt | Projet.py:50 | `quicksum(x[i] for i in slide_indices)` for 0/1 selections: the number of listed indices, counted with repetition, whose slide is selected; `SumAtAtMostOne` and `SumAtZero` state when it is at most one and when it is zero |
| Projet.SumAtAtMostOne | Projet.py:50 | the sum over a photo's slides is at most 1 exactly when no two of them are selected |
| Projet.SumAtZero | Projet.py:50 | the sum is 0 exactly when none of the listed slides is selected |
| Projet.PhotoSumIffDisjoint | Projet.py:49-50 | for one photo, its sum is at most 1 exactly when no two selected slides both show it |
| Projet.UsageConstraintsIffDisjoint | Projet.py:49-50 | the per-photo constraints hold exactly when the selected slides are photo-disjoint |
| Projet.SlideTagSet | Projet.py:57-58 | `set().union(*(photos[p][2] for p in slide))` for one slide; `Projet.SlideTagSetUnion` states its members |
| Projet.SlideTagSetUnion | Projet.py:57-58 | a slide's tag set is the union of its photos' tag sets |
| Projet.SlideTagSets | Projet.py:57-58 | entry k is the tag set of slide k; entry by entry, with the members of each set in `Projet.SlideTagSetUnion` |
| Projet.Star | Projet.py:56-60 | one row of the double sum: slide i scored against each later slide, counted where both are selected; see `Projet.StarUnselected` and `Projet.StarSelected` |
| Projet.PairSum | Projet.py:55-60 | the value of `total_interest` under a selection: the sum of the rows for every i; `Projet.PairSumSelected` equates it with `Projet.AllPairs` of the selected slides |
| Projet.AllPairs | Projet.py:55-59 | the interest of a list of slides with every unordered pair scored once, the reference the objective is proved against |
| Projet.TotalInterest | Projet.py:53-61 | the nested loops over i < j compute the pair sum of scores of pairs whose two slides are selected |
| Projet.RowInterest | Projet.py:56-60 | the inner loop for i sums the scores of slide i against each later slide, counting those where both are selected |
| Projet.StarUnselected | Projet.py:60 | an unselected slide's row contributes nothing |
| Projet.StarSelected | Projet.py:56-60 | a selected slide's row scores it against exactly the selected slides after it |
| Projet.PairSumSelected | Projet.py:55-60 | the objective under x is the interest of the selected slides alone, each unordered pair counted once |
| Output.CountLine | Projet.py:78 | the first line, `f"{len(selected_slides)}\n"`; `Output.CountLineParses` reads it back |
| Output.SlideLine | Projet.py:80 | `" ".join(map(str, slide)) + "\n"`; `Output.SlideLineRoundTrip` reads it back |
| Output.FormatSolution | Projet.py:77-80 | the lines of the solution file: the count line, then one slide line per slide; `Output.FormatSolutionShape` and `Output.FormatParseRoundTrip` state its shape and that it reads back |
| Output.WriteOutput | Projet.py:76-80 | the file is the count line, then one line per slide, in order; `slideshow.py` lines 120-123 write the same |
| Output.FormatSolutionShape | Projet.py:76-80 | a written file has 1 + n lines; the first parses to n, and line k + 1 is slide k's line |
| Output.CountLineParses | slideshow.py:121 | the count line parses back to the count |
| Output.IdStringsTokens | slideshow.py:123 | every id written by `str` is a token that `int` reads back as that id |
| Output.SlideLineRoundTrip | Projet.py:80 | a slide line reads back as its slide |
| Output.SlideLinesRoundTrip | Projet.py:79-80 | the slide lines read back as the slides |
| Output.ParseSlideLine | Projet.py:80 | a slide read from a line has as many photos as the line has tokens |
| Output.ParseSolution | Projet.py:78-80 | a file that reads has one line more than the slides read |
| Output.FormatParseRoundTrip | Projet.py:76-80 | reading back a written solution file gives the slideshow that was written |
| Output.FormatInjective | Projet.py:76-80 | different slideshows write different files |

## Left out

- The solver (`gp.Model`, `addVars`, `addConstr`, `setObjective`, `optimize`, `setParam`). It is a foreign library. The constraints are predicates over an assignment given as input, and nothing is claimed about optimality.
- Connectivity: nothing shows the active transitions form a single chain. The constraints do not force one, and the model proves only that walks are simple.
- Floating-point readouts (`x[i].x`, `pos[i].x`, `model.objVal`). A selection is a boolean, `> 0.5` becomes "is true", and positions are integers.
- The objective of `slideshow.py` (lines 88-93). It only goes to the solver. Its terms are `Slideshow.TransitionScore` of `slide_tags`, which are modelled.
- File I/O and the process boundary: `open`, `readlines`, `readline`, `write`, `sys.argv`, `sys.exit`, `print` and the fixed paths in `main`. Reading is modelled over a sequence of lines, with `readline` past the end returning `""`. Writing produces a sequence of lines.
- Python's set iteration order. `Slideshow.Dedup` keeps first occurrences. Python's order is unspecified, so only the set of tags and the absence of duplicates are meaningful.
- `int()` on non-ASCII Unicode digits. `Text.ParseInt` accepts ASCII digits only, with an optional sign and single underscores between digits.
- CPython's limit of 4300 digits on `int()` and `str()` conversion. `Text.ParseInt` and `Text.NatToString` accept and write numbers of any length; no realistic input file comes near the limit.
- Python's sort algorithm. The in-place sort is an insertion sort. `Slideshow.SortedUnique` shows that any sort by the same total order gives the same list.
- Text.ParseInt: its contract states only that an accepted token is non-empty and that a digit-led token gives a non-negative value. `Text.ParseIntNatToString` pins `int(str(n)) == n` for n ≥ 0 only. Signs, underscores and which tokens are rejected rest on the body alone.
