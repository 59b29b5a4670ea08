# Graph coloring by naive backtracking

A model of a small graph-coloring tool. The tool reads a text file that gives a
number of colors `k` and an undirected graph as a list of edges. It searches by
backtracking for an assignment of colors `0 .. k-1` to the nodes in which no two
adjacent nodes share a color. A validator checks a coloring against the graph.

The model has six modules:

- `Wrappers`: `Option` and `Result`.
- `Graph`: the graph as the colorer sees it. The nodes are a sequence in
  insertion order. Each node maps to its neighbour list, which is also
  ordered. `Valid` requires that the nodes are distinct, that the adjacency is
  symmetric and that there are no self-loops.
- `ColoringSpec`: the reference search. `Solve(g, k, pre)` tries colors
  `0 .. k-1` for the next node in node order, recursing on each color that is
  safe. It returns the first complete coloring in that order.
  `Search(g, k)` is the answer of the whole search, as a map from
  node to color, with `{}` for the empty graph. Soundness and
  completeness are proved about both.
- `Colorer`: `check_coloring`, as the function `Check` and the looping method
  `CheckColoring`, and the class `NaiveBacktrackingColorer`. The class keeps the
  color attribute of its private graph copy as a mutable field
  `color: map<int, Option<int>>`, where `None` is Python's `None`.
  - `IsSafe` models `is_safe`.
  - `NextUncolored` models the generator of uncolored nodes.
  - `GraphColoringUtil` models `graph_coloring_util` as a recursive method that
    assigns and undoes colors in place.
  - `GraphColoring` and `Color` model `graph_coloring` and `color`.

  `GraphColoring` and `Color` are proved to return exactly `Search`.
  `GraphColoringUtil` is handed `pre`, the colors of the nodes before `node`.
  It is proved to return true iff every node is already colored or `Solve`
  succeeds from `pre`. When every node was already colored it changes nothing;
  otherwise, on success, it leaves the colors of `Solve`'s solution.
  The source computes the next uncolored node before it colors `node`. That
  node is `node` itself, so the recursive call gets the same node again, which
  its caller has just colored. Each node is therefore colored in two nested
  frames. A frame that fails leaves its node and all later nodes uncolored. For
  the inner of the two frames, this clears the color that its caller set
  (Colorer.py:61); the caller then tries its next color. The result is still
  the one `Solve` defines.
- `Text`: the Python string built-ins the reader uses:
  - `lower` (ASCII letters only);
  - `strip`, with the full `str.isspace()` set;
  - `split` on one character;
  - `int` for base-10 text. `int` skips a narrower white-space set of its own,
    which leaves out U+001C..U+001F;
  - `str` for integers.
- `InputFile`: `read_input`, as the one-pass method `ReadInput`. It is proved
  equal to the declarative `Parsed`. The file is a sequence of lines, each
  with its line terminator, as iterating over an open text file yields them.
  The two exceptions the reader raises are the values `HeaderError` and
  `EdgeError`. `Message` gives each one's text.

## Model

| member | source | states |
|---|---|---|
| Colorer.Check | Colorer.py:6-11 | what `check_coloring` returns or raises; a raised KeyError names a key missing from `colors` (its full meaning is `CheckMeaning`) |
| Colorer.CheckColoring | Colorer.py:6-11 | the nested loops over nodes and neighbours return exactly `Check`: the first conflicting pair gives false, a node or neighbour missing from `colors` gives the KeyError |
| Colorer.CheckMeaning | Colorer.py:6-11 | `Check` is `Ok(true)` iff no adjacent pair has equal colors; `Ok(false)` implies an adjacent pair with equal colors; an error names a graph node missing from `colors` |
| Colorer.CheckNodesMeaning | Colorer.py:7-11 | the outer loop over a node list: true iff every node's neighbours differ from it; false implies a conflict; an error names a missing node or neighbour |
| Colorer.CheckNeighborsMeaning | Colorer.py:8-10 | the inner loop over one node's neighbours: true iff every neighbour differs; false implies an equal-colored neighbour; an error names the node or a neighbour missing from `colors` |
| Colorer.CheckTotal | Colorer.py:6-11 | when every node has a color, the check cannot fail and returns whether the coloring has no conflict |
| Colorer.SearchPassesCheck | Colorer.py:6-11 | every coloring the search returns passes `check_coloring` |
| Colorer.NaiveBacktrackingColorer.constructor | Colorer.py:34-36 | the colorer keeps the color count and its own copy of the graph, with no colors assigned yet |
| Colorer.NaiveBacktrackingColorer.IsSafe | Colorer.py:39-43 | true iff no neighbour of `node` currently holds color `c` |
| Colorer.NaiveBacktrackingColorer.NextUncolored | Colorer.py:46-51 | `None` iff every node is colored; otherwise the first uncolored node in node order |
| Colorer.SafeIsCanExtend | Colorer.py:39-43 | in every state the search reaches, `is_safe` for the current node agrees with the reference search's safety test `CanExtend` |
| Colorer.NextOfSlots | Colorer.py:46-53 | in a state where the first `\|t\|` nodes are colored, the next uncolored node is node `\|t\|`, or none when all are colored |
| Colorer.NaiveBacktrackingColorer.GraphColoringUtil | Colorer.py:45-63 | returns true iff all nodes are already colored or the reference search from `pre`, the colors of the nodes before `node`, succeeds; when all nodes were already colored the colors are unchanged, otherwise on success they are the search's solution; on failure every color it tried is undone and the node is uncolored again |
| Colorer.NaiveBacktrackingColorer.GraphColoring | Colorer.py:65-75 | returns `Search`: `{}` for the empty graph; otherwise the colors of the first coloring found in order, read off the node attributes, or `None` (all nodes left uncolored) |
| Colorer.NaiveBacktrackingColorer.Color | Colorer.py:77 | `color()` returns exactly `Search` for the colorer's graph and color count, and leaves the same colors as `graph_coloring`: unchanged for the empty graph, the solution on success, every node uncolored on failure |
| Colorer.FrameSucceeds | Colorer.py:57-60 | a recursive call that succeeds after choosing a safe color makes the whole frame's answer the reference solution |
| Colorer.FrameFails | Colorer.py:57-62 | a recursive call that fails after a safe color moves the search on to the next color |
| Colorer.SlotsSet | Colorer.py:58 | assigning the current node a color turns the state of prefix `pre` into the state of `pre + [c]` |
| Colorer.SlotsClear | Colorer.py:61 | the backtrack step restores the state of prefix `pre` |
| Colorer.SlotsToMap | Colorer.py:73 | when every node is colored, the dictionary read off the attributes is the map of the solution sequence |
| ColoringSpec.SolveSound | Colorer.py:56-60 | whatever the search finds extends its prefix, colors every node with a color in `[0, k)` and gives adjacent nodes different colors |
| ColoringSpec.SolveComplete | Colorer.py:56-63 | if some proper complete coloring extends the prefix, the search from that prefix succeeds |
| ColoringSpec.TryColorsSkip | Colorer.py:56-62 | an unsafe color, or one whose recursive search fails, is skipped |
| ColoringSpec.TryColorsHit | Colorer.py:57-60 | the first safe color whose recursive search succeeds decides the answer |
| ColoringSpec.ExtendProper | Colorer.py:57-58 | extending a proper prefix by a safe color in range keeps it proper |
| ColoringSpec.SearchSound | Colorer.py:65-75 | a returned map has exactly the graph's nodes as keys and is a proper k-coloring |
| ColoringSpec.SearchComplete | Colorer.py:65-75 | `None` is returned only when no proper k-coloring exists |
| ColoringSpec.SearchSucceedsIffColorable | Colorer.py:65-75 | the search succeeds iff the graph has a proper k-coloring |
| ColoringSpec.NoColorsNoColoring | Colorer.py:56-63 | with `k <= 0` colors, a non-empty graph has no coloring |
| InputFile.ReadInput | main.py:23-53 | the line-by-line loop returns exactly `Parsed`: the color count and the edge list, or the first error raised |
| InputFile.ParsedMeaning | main.py:28-53 | reading succeeds iff there is a non-comment line, it is a valid header, and every later non-comment line is a valid edge line; the header error is raised iff there is no header or it is malformed; the result holds the header's count and one edge per later line, in order |
| InputFile.ParsedStopsAt | main.py:31-48 | a bad header, or after a good header a bad edge line, decides the outcome whatever follows it |
| InputFile.CommentIgnored | main.py:29-30 | a comment line anywhere in the file, before or after the header, does not change the result |
| InputFile.OnlyCommentsNoHeader | main.py:50-51 | a file of comment lines only, the empty file included, raises the header error |
| InputFile.UncommentedMeaning | main.py:29-30 | the lines read are exactly the non-comment lines of the file |
| InputFile.EdgesOfMeaning | main.py:42-48 | the edge lines give a result iff each parses, and then one edge per line, in file order |
| InputFile.HeaderAccepted | main.py:32-40 | `colors = <k>` is accepted for any integer `k`, with the key in any letter case and white space around the key, the `=` and the number |
| InputFile.ParseHeader | main.py:32-40 | the header test: lowered and stripped, split at `=` into exactly two parts, the stripped key `colors`, then `int` of the stripped value. It has no contract of its own; `HeaderOneEquals`, `HeaderAccepted` and `ParsedMeaning` state its meaning |
| InputFile.HeaderOneEquals | main.py:32-33 | an accepted header line holds exactly one `=` |
| InputFile.ParseEdge | main.py:42-48 | the edge test: stripped, split at `,` into exactly two parts, `int` of each. It has no contract of its own; `EdgeOneComma`, `EdgeAccepted` and `EdgesOfMeaning` state its meaning |
| InputFile.EdgeOneComma | main.py:42-44 | an accepted edge line holds exactly one comma |
| InputFile.EdgeAccepted | main.py:42-46 | `<u>,<v>` is accepted for any integers, with `str.strip` white space around the line and `int` white space around each number |
| InputFile.EdgeNumber | main.py:46 | one number with `int` white space around it reads as that number and holds no comma |
| InputFile.SeparatorBreaksEdge | main.py:42-48 | the line `1\x1c,2` is malformed: `strip` does not reach the U+001C inside the line, and `int` does not skip it |
| InputFile.LineWithoutCommaFails | main.py:42-44 | after a good header, a non-comment line without a comma raises the edge error |
| InputFile.SecondLineFails | main.py:31-44 | after any valid header line, a second line that is no comment and has no comma raises the edge error, whatever follows |
| InputFile.RepeatedHeaderFails | main.py:31-44 | after any valid header, a second `colors = <k>` line is read as an edge line and raises the edge error |
| InputFile.BlankLineFails | main.py:42-44 | after any valid header, a blank line is not skipped: it raises the edge error |
| InputFile.HeaderLineRead | main.py:32-40 | the header line `colors = <k>` is not a comment and reads back as `k` |
| InputFile.EdgeLineRead | main.py:42-46 | the edge line `<u>,<v>` is not a comment and reads back as `(u, v)` |
| InputFile.EdgesOfRender | main.py:46 | edge lines read back as their edges, in order, duplicates and self-loops kept |
| InputFile.ReadRendered | main.py:23-53 | a file written as a header and edge lines reads back as the same color count and edge list |
| Text.StripMeaning | main.py:32-42 | `strip` gives a slice of the input with only white space cut from either end, and no white space at its ends |
| Text.StripPadded | main.py:32-42 | `strip` removes exactly the white space around a trimmed middle |
| Text.SplitMeaning | main.py:32-42 | `split` gives at least one part and none contains the separator; joining the parts gives back the input; there is one part iff the separator does not occur |
| Text.SplitJoin | main.py:32-42 | splitting a join of separator-free parts gives back the parts |
| Text.SplitCount | main.py:32-44 | `split` gives one part more than there are separators, so exactly two parts means exactly one separator |
| Text.StripKeeps | main.py:32-42 | `strip` removes no printable ASCII character, such as `=` or `,` |
| Text.LowerKeeps | main.py:32 | `lower` keeps every non-letter character, such as `=` |
| Text.LowerNoUpper | main.py:32 | `lower` leaves text with no upper-case letter unchanged |
| Text.ParseIntNeedsDigit | main.py:38-46 | `int` accepts only text containing a decimal digit |
| Text.ParseIntPadded | main.py:38-46 | `int` ignores its own white space around a token: the ASCII blanks and the non-ASCII `isspace` characters, not U+001C..U+001F |
| Text.SeparatorNotSkipped | main.py:46 | `strip` removes a trailing U+001C but `int` rejects it: `int("1\x1c")` is a ValueError |
| Text.ParseIntShowInt | main.py:38-46 | `int(str(n)) == n` for every integer `n` |

## Left out

- `BuildInColorer` (Colorer.py:20-30) is not modelled. It wraps networkx's greedy coloring, whose code is not part of this model.
- The abstract base class `Colorer` (Colorer.py:14-17) has no behaviour and is not modelled.
- Argument parsing (`parse_args`), drawing (`draw_colored_graph`), the `main` driver and the color palette of main.py are not modelled. They are I/O and plotting. `color_graph` (main.py:65-69) is not modelled either: it calls networkx's equitable coloring, whose code is not part of this model, and `main` does not call it.
- The graph generator `generate.py` is not modelled.
- networkx itself is not modelled. A graph is a node sequence in insertion order plus ordered neighbour lists. `G.copy()` becomes a value copy, because `Graph` is an immutable value.
- Self-loops are excluded by `Graph.Valid`, so the colorer is modelled on graphs without self-loops. On a graph with a self-loop the source can return a coloring that `check_coloring` rejects, because the outer frame's `is_safe` sees the node itself still uncolored. A self-loop can also make the search fail: the inner frame for that node sees its own color on a neighbour, so with edges `1,1` and `2,2` and one color the result is `None`. The reader still keeps self-loops and duplicate edges as they appear in the file. A neighbour list may repeat a node in the model, although networkx never produces one that does; no proof depends on either case.
- Opening and reading the file is not modelled. The reader is given the lines as iteration yields them, with any newline translation already done.
- InputFile.IsComment: treats an empty line as a non-comment. Python would raise IndexError at `line[0]`, but iterating over a file never yields an empty line.
- Text.ParseInt: models base-10 `int()` on ASCII digits with an optional sign. Underscores between digits and non-ASCII Unicode digits, which Python also accepts, are rejected. Newer Python versions (3.10.7 and 3.11 on) reject numbers of more than 4300 digits by default, and the limit can be configured. The model reads such numbers, because the limit depends on the version and the configuration.
- Text.Lower: lower-cases ASCII letters only. Python's `lower` also maps non-ASCII upper-case letters.
- Python exceptions are modelled as `Err` values: `ReadError` for the reader's exceptions and `CheckError` for the KeyError of `check_coloring`. A raised exception ends the run, so nothing follows the error.
- Colorer.NaiveBacktrackingColorer.GraphColoringUtil: its ghost arguments (`pre`, the colors of the nodes before `node`, and `t`, the colors actually assigned) and its preconditions state the state in which the search calls it. Calls from other states, which the colorer never makes, are not covered.
- Colorer.NaiveBacktrackingColorer.IsSafe and NextUncolored require every node to carry a color attribute. `graph_coloring` sets the attribute on every node before the search starts, so the code never breaks this.
- Colorer.NaiveBacktrackingColorer.GraphColoringUtil, GraphColoring and Color: the model has no bound on recursion depth. `graph_coloring_util` calls itself twice per node (Colorer.py:59), so a search that colors every node is about two frames per node deep. CPython raises RecursionError once the depth passes `sys.getrecursionlimit()`, 1000 by default, which is reached at about 500 nodes; nothing in the source catches it. On such graphs the model returns `Search` where the source raises.
- Python's arbitrary-precision integers match Dafny's `int`, so there is no fixed width or wrap-around. The only bound is the digit limit of `int()` noted under `Text.ParseInt`.
