# progress_tree: a Dafny model of the goal-tree viewer's core

progress_tree is a browser viewer for goal trees. A sheet is a CSV or TSV file
whose rows are goals, with these columns:

- goal id;
- parent goal id;
- name;
- description;
- icon URL;
- link URL;
- optionally x and y canvas coordinates.

The viewer works in four stages:

1. It reads the sheet into records. `parseDataFile` reads the file and
   `parseDataLine` reads each line.
2. It lays out every node that still sits at (0, 0). `displayTree` triggers
   the layout, and `autoPositionNodes` and `positionNodeAndChildren` do it.
3. It joins each node to its parent with a connector (`drawConnections`).
4. It shares a sheet through a link. `optimizeTreeData` writes a compact form,
   `restoreTreeData` reads it back, and `convertJsonToCsvFormat` normalises
   the records.

The model has five modules, one per concern of `script.js`:

- `Records`: the goal record (`Node`), `Option` and `Result`.
- `Text`: the JavaScript string primitives the core relies on:
  - `trim`, with the fixed ECMAScript whitespace list;
  - `split` on one character;
  - `includes`;
  - `replace` of the first occurrence;
  - base-10 `parseInt`, which gives `None` for NaN.
- `DelimitedReader`: `parseDataLine` and `parseDataFile`.
  - `ParseDataLine` is the source's character loop, written as a `while` loop.
  - It is proved equal to `Fields`, a lexer-based specification of the
    quoting convention. `Fields` maps each character to a token (escaped
    quote, quote toggle, field break, or text), then cuts the token stream
    at the field breaks and trims each field.
  - `ParseDataFile` is the row loop, proved equal to `DataRows` over the data
    lines. Its two error outcomes are modelled as `Err` values.
- `ShareLink`: the compact share-link record and the three record
  conversions. A JSON value in a coordinate slot is modelled as missing, a
  string, or an integer.
- `Layout`: the layout and the choice of connectors.
  - The sheet is an `array<Node>`. `positionNodeAndChildren` writes into it in
    place, as the source writes into the shared node objects.
  - `PositionNodeAndChildren` and `AutoPositionNodes` are proved against
    `Laid`, a reference layout that computes each node's position bottom-up
    from its parent chain (`Pos`). Under `Pos`:
    - the k-th root goes to (100, 100 + 200k);
    - the i-th child of a placed node goes 250 to its right and 150·i below it;
    - a node whose chain reaches no root is not moved.
  - The lemmas about `Laid` state the promised geometry, idempotence and
    independence from the old coordinates.
  - `Connections` is the list of (parent, child) pairs that `drawConnections`
    draws.

Four behaviours of the code that a reader might not expect, all modelled as
written:

- No visited-set guard. `positionNodeAndChildren` recurses into every node
  whose parent id equals the current node's id, and never checks whether it
  has been there before. With duplicate or empty ids the recursion can run
  forever. For example, a root with an empty id takes every root, itself
  included, as its child. The layout methods therefore require unique,
  non-empty ids. Under that requirement the recursion provably ends
  (`PathBound`, `ChildNotOnPath`).
- Orphans are not placed. A node whose parent id names no node is not a root
  (script.js:327 keeps only empty parent ids), so layout never reaches it and
  it keeps its coordinates. Here `Pos` is `None` and `UnrootedKeeps` applies.
- Siblings are not pushed apart. The i-th child goes to `y + 150·i` whatever
  its earlier siblings' subtrees occupy (script.js:335), so subtrees can
  overlap (`ChildPlacement`).
- Coincident centres are still joined. A connector is selected even when
  parent and child share a centre, and the source's division by the zero
  distance then gives NaN offsets. The model selects the pair too.

## Model

| member | source | states |
|---|---|---|
| Text.TrimIsTrimmed | script.js:172 | a trimmed field has no whitespace at either end |
| Text.TrimCuts | script.js:172 | trim removes whitespace from the two ends and nothing else: the result is a slice of the input whose cut-off ends are all whitespace |
| Text.TrimIdempotent | script.js:138 | trimming twice is trimming once |
| Text.SplitPiecesFree | script.js:138 | no line produced by splitting on `\n` contains `\n` |
| Text.JoinSplit | script.js:138 | joining the split lines with the separator gives the text back, so no character is lost |
| Text.SplitJoin | script.js:138 | splitting pieces that are free of the separator, once joined with it, gives the pieces back |
| Text.ParseIntDecimal | script.js:154 | parseInt reads back the decimal text of any integer, including a negative one, even when non-digit text follows |
| DelimitedReader.ParseDataLine | script.js:161-178 | the character loop returns exactly `Fields(line, delimiter)`; the delimiter is `,` for CSV and a tab otherwise |
| DelimitedReader.FieldsShape | script.js:161-178 | a line yields one field more than it has delimiters outside quotes, and every field is trimmed |
| DelimitedReader.QuoteNeverKept | script.js:167-170 | a `"` never reaches a field as itself: it toggles quoting, or stands for one `"` when doubled inside quotes |
| DelimitedReader.UnquotedLineSplits | script.js:171-174 | on a line without quotes the reader is a plain split at every delimiter, followed by trim |
| DelimitedReader.QuotedFieldsRoundTrip | script.js:165-176 | fields written quoted, with `"` doubled inside and delimiters between them, lex back to exactly those fields, even when they contain delimiters or quotes |
| DelimitedReader.QuotedFieldsRead | script.js:161-178 | parseDataLine returns quoted fields as the trimmed originals |
| DelimitedReader.ExpectedFragmentValues | script.js:141-142 | the searched fragments are the five Japanese names unchanged, `アイコン` for the icon column and the empty string for `URL` |
| DelimitedReader.HeaderOkMeaning | script.js:140-144 | the header check passes exactly when each of `目標ID`, `親目標ID`, `目標名`, `説明`, `アイコン` occurs in some header cell; the `URL` entry always passes |
| DelimitedReader.DataRowsAppend | script.js:145-158 | reading two runs of lines reads each run in turn: records keep the order of their lines, and each line is read on its own |
| DelimitedReader.ParseDataFile | script.js:137-159 | fewer than two lines after trimming gives `NoHeaderRow`; a failed header check gives `BadHeader`; otherwise the result is one record per non-blank data line with at least six fields, in order, with missing or non-numeric coordinates read as 0 |
| ShareLink.NumberCoordinate | script.js:212 | parseInt with the 0 default, applied to an integer number, gives the number back |
| ShareLink.RestoreAfterOptimize | script.js:190-215 | restoring an optimized sheet gives the same sheet back, record for record |
| ShareLink.ConvertKeepsNodes | script.js:180-187 | normalising records that are already complete nodes changes nothing |
| ShareLink.ShareRoundTrip | script.js:256-270 | a sheet written into a link (optimize) and read back (restore, then normalise) is the sheet itself |
| ShareLink.RestoreDefaults | script.js:204-215 | restore keeps every present text key and fills each missing one with `""`; a missing or non-numeric coordinate becomes 0; a number stays itself; a numeric string becomes its parsed value |
| ShareLink.StringCoordinate | script.js:212-213 | a coordinate written as text with a trailing non-digit unit (such as `120px`) restores to its leading integer |
| Layout.LastWithId | script.js:339 | the id index returns the last node carrying the id, and none when no node carries it |
| Layout.ParentOfMeaning | script.js:342-344 | a parent resolves exactly when the parent id is non-empty and some node carries it, and it is then the last such node |
| Layout.ParentIsIdMatch | script.js:334 | under unique, non-empty ids, the filter `c.parentId === node.id` selects exactly the nodes whose parent is `node` |
| Layout.ChildNotOnPath | script.js:332-336 | a child of the last node on a chain of calls is not already on the chain, so the chain grows by one node |
| Layout.PathBound | script.js:332-336 | a chain of nested calls visits each node at most once, so the recursion depth is bounded by the sheet size |
| Layout.PosBounds | script.js:319 | every position layout assigns is at least 100 on both axes, so no laid-out node stays at (0, 0) |
| Layout.PlacedHasRoot | script.js:325-336 | a node gets a position only if its parent chain reaches a root |
| Layout.RootedIsPlaced | script.js:325-336 | every node whose parent chain reaches a root gets a position |
| Layout.RootPlacement | script.js:327-329 | the k-th root in sheet order goes to (100, 100 + 200k); every other field of it is unchanged |
| Layout.ChildPlacement | script.js:333-335 | the i-th child in sheet order of a placed node goes 250 to the right of it and 150·i below it |
| Layout.UnrootedKeeps | script.js:325-336 | a node whose parent chain reaches no root keeps all its fields |
| Layout.LayoutIgnoresCoordinates | script.js:325-336 | positions depend only on ids and parent ids, and layout changes no id or parent id |
| Layout.LayoutIdempotent | script.js:319 | laying out an already laid-out sheet changes nothing |
| Layout.PositionNodeAndChildren | script.js:332-336 | in place, the subtree of the node, and nothing else, moves to its layout position; every other cell of the array is unchanged |
| Layout.PlaceChild | script.js:334-335 | the callback for the i-th child: the child and its subtree go to (x + 250, y + 150·i), and the loop moves to its next stage |
| Layout.PlaceRoot | script.js:329 | the callback for a root: the root goes to (100, y) with its subtree, and the next root's y is 200 lower |
| Layout.AutoPositionNodes | script.js:325-330 | the array after the call equals `Laid` of the array before it |
| Layout.DisplayTree | script.js:317-320 | layout runs exactly when some node is at (0, 0), and the connectors are chosen from the resulting coordinates |
| Layout.ConnectionsSound | script.js:341-348 | every connector joins a node to its resolved parent, centre to centre (box 90×60), and children appear in increasing sheet order |
| Layout.ConnectionsComplete | script.js:341-348 | every node whose parent resolves gets a connector |
| Layout.ConnectionsExact | script.js:338-350 | a node has a connector exactly when its parent resolves, and never more than one |

## Left out

- `js/script.js` is not part of this model.
- Drawing is left out: `drawLine`, and the `Math.hypot`/`atan2` geometry of a connector, which shortens it by the icon radius. These are floating point, so connectors are modelled as their two centre points in integers.
- Zoom and the small-screen `applyZoom` call in `displayTree` are left out: they are presentation only.
- `createTreeNode`, tabs, file reading, drag and drop, `showError` and the URL notices are left out: they are DOM and I/O.
- LZString compression, JSON text, `encodeURIComponent` and the fallback to the legacy link format are left out: they are foreign code and I/O. Records pass between the share-link conversions as values, and JSON is taken to carry strings and integers unchanged.
- Error message texts are left out. The two failures of `parseDataFile` are modelled as the values `NoHeaderRow` and `BadHeader`.
- Text.ParseInt: models parseInt as decimal only. It has no `0x` hexadecimal prefix, and it does not read back numbers that JavaScript writes with an exponent or a fraction.
- Text.IsSpace: the whitespace list is fixed, with no Unicode normalisation.
- Strings are sequences of Unicode scalar values (Dafny's `char`), not of UTF-16 code units. A lone surrogate, which a JavaScript string may hold, cannot be represented. A character outside the Basic Multilingual Plane is one `char` here but two code units to the source's `line[i]`. On well-formed text the fields are the same, because no quote, delimiter or whitespace character is a surrogate.
- Node: coordinates are unbounded integers. In the source they are IEEE doubles, and `parseInt` (script.js:154, script.js:212-213) rounds a digit string longer than 2^53 to the nearest double. The model reads such a string exactly, so on coordinates of that size it differs from the source.
- ShareLink.CoordinateOf: a JSON coordinate is missing, a string or an integer. Floating-point numbers, booleans and nested values are left out.
- ShareLink.OrEmpty: a text slot is present or missing. A non-string JSON value (a number, say) in a text slot is left out.
- Layout.PositionNodeAndChildren: requires unique, non-empty ids. The source also runs on other sheets, but on some of them it never returns, for example when a root's id is empty.
- Layout.AutoPositionNodes: requires unique, non-empty ids, for the same reason. Under unique ids the source's `Map` iterates the nodes in sheet order, which the loop over the array follows.
- Layout.DisplayTree: requires unique, non-empty ids when layout runs. Its connectors are the pairs `drawConnections` chooses; the drawn lines are left out.
- Layout.PositionNodeAndChildren: the source filters the children first and then visits them (script.js:334-335). The model tests and visits in one pass, which is the same because layout never changes a parent id.
- Layout.AutoPositionNodes: likewise, the source filters the roots and then visits them (script.js:327-329). The model tests and visits in one pass, which is the same because a root's parent id is never changed.
