# tls-batgen core in Dafny

`tls-batgen.py` edits save files of a space-simulation game. The files use
a nested `BEGIN`/`END` text format. This project models the core of that
tool:

- **Tree** (`tree.dfy`). A node has an optional tag, an ordered list of
  `(key, value)` attributes and an ordered list of children. It also
  holds the attribute operations `set_attr` and `remove_attributes`, plus
  the first-match and last-match lookups the edits use.
- **Tokens** (`tokens.dfy`). `tokenize_attributes` splits a line
  shell-style into words, with double quotes grouping a word, and pairs
  the words up.
- **Serializer** (`serializer.dfy`). `Node.to_string` chooses between a
  one-line form and an expanded form. The cut-off is 220 characters and
  indentation is four spaces per level.
- **Parser** (`parser.dfy`). `parse_node` reads the inline form, the
  header form and the body loop. `parse_file` reads the header pairs of a
  file and its top-level nodes.
- **RoundTrip and NodeText** (`roundtrip.dfy`, `nodetext.dfy`). These
  prove that what `to_string` writes, the modelled `parse_node` and
  `parse_file` read back.
  - The modelled parser reads a one-line parent header with the
    correction described under "## Findings"; the code as written loses
    quoted values there.
  - This holds for every tree whose tags, keys and values are words the
    format can carry.
  - Two concrete lemmas exhibit words it cannot carry.
- **Remap** (`remap.dfy`). This is the two-pass identifier remapper:
  - `assign_new_ids` renumbers every `id` attribute from a shared counter
    and records old value to new value;
  - `apply_related_id_mapping` redirects the reference attributes through
    that map;
  - `update_ids` runs one pass after the other;
  - `update_related_ids` redirects a single id.
- **Edits** (`edits.dfy`). These are the tree edits:
  - `remove_workqueue`, `remove_newship_friendly`,
    `clear_crew_attributes`, `remove_entities_recursively`,
    `remove_entities_from_habitation` and `update_shipai_layer_attribute`;
  - the lane offsets of `calc_offset`.

`text.dfy` holds the string helpers of Python that the tool relies on:

- `str.strip`, using Python's whitespace set;
- `str.splitlines`;
- `"\n".join`;
- ASCII `lower`;
- `str(int)`.

`seqs.dfy` holds generic sequence lemmas. `wrappers.dfy` holds the
`Option` and `Result` types.

The source mutates trees in place. Here every operation is a function from
the old tree, or forest, to the new one. The shared id counter is an `int`
that goes in and comes out. A parse error (`ValueError` or shlex's "No
closing quotation") is a `Failure` that carries the error kind.

Where the written description of the tool and its code differ, the model
follows the code. The one correction of the code is the header reading
of `parse_node` at lines 109-111 (see "## Findings"); the other places
where the model's behaviour differs from the code, such as the ASCII-only
lowering and the splitter without backslash escapes or single quotes, are
listed under "## Left out". The differences between description and code:

- `set_attr` overwrites *every* entry whose key matches ignoring case,
  not only the first.
- A reference key is one that ends in `Id` compared case-sensitively
  (`k.endswith("Id")`), not case-insensitively.
- A childless node without attributes is written in the expanded form
  (`BEGIN tag` / `END`), not as `BEGIN tag  END`. This is because line 65
  also requires `horiz_attrs`.

## Model

| member | source | states |
|---|---|---|
| Tree.SetAttr | tls-batgen.py:172-183 | if some key matches ignoring case, every matching entry keeps its own key and takes the new value in place, and every other entry is unchanged; otherwise the list is the old list with `(key, value)` appended |
| Tree.SetAttrLookup | tls-batgen.py:172-183 | afterwards the key is present and every entry matching it holds the new value |
| Tree.SetAttrKeys | tls-batgen.py:172-183 | the sequence of keys is unchanged when the key was present, and gains exactly the new key at the end otherwise |
| Tree.SetAttrIdempotent | tls-batgen.py:172-183 | setting the same key and value twice gives the same list as setting it once |
| Tree.SetAttrThenGet | tls-batgen.py:172-183 | after setting, both the first-match and the last-match lookup of the key read the new value |
| Tree.FirstValue | tls-batgen.py:343-347 | the value of the first entry whose key matches ignoring case; `None` exactly when no key matches |
| Tree.LastValue | tls-batgen.py:331-337 | the value of the last entry whose key matches ignoring case; `None` exactly when no key matches |
| Tree.RemoveAttributes | tls-batgen.py:185-186 | a pair is kept exactly when it was in the list and its key, compared case-sensitively, is not one of the keys to remove |
| Tree.RemoveAttributesFilter | tls-batgen.py:185-186 | removal works pair by pair: it distributes over concatenation, it keeps or drops a single pair by its key, and applying it twice equals applying it once |
| Tokens.Split | tls-batgen.py:76 | splitting fails only with "no closing quotation", and it always succeeds on text without a double quote |
| Tokens.PairTokens | tls-batgen.py:77-85 | pair `i` is word `2i` with word `2i+1`; an odd last word is paired with the empty value |
| Tokens.TokenizeAttributes | tls-batgen.py:75-85 | tokenizing fails only with "no closing quotation", and it always succeeds on text without a double quote |
| Tokens.PairFlatten | tls-batgen.py:77-85 | pairing up the flattened words of any pair list gives that list back |
| Tokens.FlattenPair | tls-batgen.py:77-85 | flattening the pairs gives the words back, plus one empty value when the word count is odd |
| Tokens.SplitJoinPlain | tls-batgen.py:76 | words without quotes or separators, joined by single spaces, split back into exactly those words |
| Tokens.ReadQuoted | tls-batgen.py:15-23 | a word written by `quote_if_needed` (wrapped in quotes when it has a space) is read back by the splitter as that one word |
| Serializer.HorizAttrs | tls-batgen.py:40-42 | the one-line attribute text is empty exactly when the node has no attributes |
| Serializer.AttrLines | tls-batgen.py:58-59 | the expanded form has one line per attribute, in order, each indented one level deeper than the node and holding the quoted key and value |
| Serializer.Layout | tls-batgen.py:35-73 | a node takes one line exactly when it has no children, has attributes and its inline line is at most 220 characters; a childless node otherwise takes its bare header, one line per attribute and `END`; a parent starts with the one-line header if it has attributes and that header is at most 220 characters, else with the bare header, has at least two more lines than children and ends with `END` |
| Serializer.ToStringIsLines | tls-batgen.py:35-73 | `to_string` is the newline join of the node's line list, children's lines included in order |
| Serializer.ToStringFramed | tls-batgen.py:35-73 | whichever form it takes, the text of a node starts with `4L` spaces and `BEGIN` and ends with `END` |
| Tree.QuoteIfNeededShape | tls-batgen.py:15-23 | the quoting changes a word exactly when it holds a space, and then only adds one double quote at each end |
| Serializer.LinesIndented | tls-batgen.py:35-73 | every line a node at nesting level `L` writes, its descendants' lines included, starts with `4L` spaces |
| Parser.ParseNode | tls-batgen.py:87-125 | on success the stripped start line begins with `BEGIN` and the returned index lies after the start and within the lines |
| Parser.ParseNodeExpectsBegin | tls-batgen.py:89-91 | a start line that does not begin with `BEGIN` after stripping fails with the expected-BEGIN error at its one-based line number |
| Parser.ParseInline | tls-batgen.py:93-103 | an inline node parses to a node with a tag and no children |
| Parser.ParseNodeInline | tls-batgen.py:93-103 | a `BEGIN` line containing `END` is read on its own: the pattern not matching is exactly the malformed-inline error; otherwise the error is from tokenizing; a success is a childless tagged node that consumes one line |
| Parser.NodeHeaderStep | tls-batgen.py:105-112 | a `BEGIN` line without `END` fails exactly when its header words fail to split; otherwise the node is read from the next line on, starting from the header's tag and attributes |
| Parser.BodyEndStep | tls-batgen.py:114-117 | a body line that begins with `END` closes the node and returns the index after it |
| Parser.BodyChildStep | tls-batgen.py:118-120 | a body line that begins with `BEGIN` parses a child: its failure is the node's failure, and its success appends it and continues after its lines |
| Parser.BodyAttrStep | tls-batgen.py:121-124 | any other non-blank body line appends its tokenized pairs to the attributes and continues on the next line, or fails with the tokenizer's error |
| Parser.BodyBlankStep | tls-batgen.py:121-124 | a blank body line is skipped |
| Parser.ParseNodeMissingEnd | tls-batgen.py:113-125 | a header with no later `END` line never parses; if every later line is blank, the error is missing-END at the start's one-based line number |
| Parser.ParseFile | tls-batgen.py:127-146 | a text made only of blank lines is the empty document; a text without a `BEGIN` line has no nodes |
| Parser.ParseLines | tls-batgen.py:132-145 | the loop only appends to the header pairs and the nodes; once only blank lines are left it returns what it has; with no `BEGIN` line left it adds no node |
| Parser.FileBlankStep | tls-batgen.py:134-139 | a blank line of the file is skipped |
| Parser.FileHeaderStep | tls-batgen.py:140-142 | any other line not starting with `BEGIN` appends its tokenized pairs to the header, or fails with the tokenizer's error |
| Parser.FileNodeStep | tls-batgen.py:143-145 | a `BEGIN` line starts a top-level node: its failure is the file's failure, and its success appends it and continues after its lines |
| Parser.HeaderAttrs | tls-batgen.py:105-111 | the header's attributes pair the words after the tag directly: key `i` is word `2i+1` and value `i` is word `2i+2`, or empty when missing |
| Parser.HeaderAttrsAgreeOnPlainWords | tls-batgen.py:109-111 | re-joining and re-splitting the words after the tag agrees with pairing them directly when no word holds a quote or a separator |
| Parser.HeaderRequoteLoss | tls-batgen.py:109-111 | for the header words `Layer Name "New Ship"` the code as written yields `Name New` and `Ship` with an empty value, while direct pairing keeps `Name` = `New Ship` |
| Text.TrimLeft | tls-batgen.py:89 | removes exactly the leading run of whitespace: what is cut is all whitespace, and the rest is empty or starts with non-whitespace |
| Text.TrimRight | tls-batgen.py:89 | removes exactly the trailing run of whitespace, symmetrically |
| Text.StripIdempotent | tls-batgen.py:114 | stripping twice equals stripping once |
| Text.SplitJoinLines | tls-batgen.py:128 | `splitlines` of lines joined by newlines gives the lines back, when no line holds a break and the last line is not empty |
| Text.IntToStringInjective | tls-batgen.py:208 | distinct counter values give distinct id texts |
| RoundTrip.ReadNode | tls-batgen.py:87-125 | wherever the line list of a well-formed node sits among other lines, `parse_node` started on its first line returns that very node and the index just past its last line |
| NodeText.SplitToString | tls-batgen.py:63 | `splitlines` of a well-formed node's text gives exactly its line list |
| NodeText.NodeRoundTrip | tls-batgen.py:87-125 | `parse_node` over the lines of `to_string(n)` returns `n` and consumes every line, for every well-formed node at every indentation level |
| NodeText.FileRoundTrip | tls-batgen.py:127-146 | the text made of header pair lines followed by the nodes' lines is read by `parse_file` back to the same header pairs and the same nodes |
| NodeText.EndValueLost | tls-batgen.py:93-103 | a parent with the attribute `k END` writes a header line containing `END`, which the parser takes as an inline node: it consumes one line and does not return the original node |
| NodeText.EmptyValueShifts | tls-batgen.py:75-85 | an empty value is written as nothing, so `k` with an empty value followed by `j v` reads back as `k j` and `v` with an empty value |
| Remap.IdKeyIsNoReference | tls-batgen.py:189-191 | a key the first pass renumbers (`id` in any case) is never a reference key, so the second pass leaves the new numbers alone |
| Remap.AssignAttrs | tls-batgen.py:205-211 | on one attribute list: the counter advances by the number of `id` entries, only their values change, they take the consecutive counter values in order, and the map records each old value to its new value |
| Remap.AssignForest | tls-batgen.py:199-213 | the forest keeps its shape and every key and non-id value; the ids of every node not tagged `network`, in pre-order, become consecutive counter values from the start; the counter advances by their number; the map records each old id to its new one, a later duplicate overriding an earlier one |
| Remap.RecordLookup | tls-batgen.py:210 | the map holds exactly the earlier entries and the old ids; an old id that does not occur again later maps to the counter value it took |
| Remap.ConsecutiveDistinct | tls-batgen.py:208-211 | the fresh ids handed out in one run are pairwise distinct |
| Remap.ConsecutiveDisjoint | tls-batgen.py:208-211 | two runs that follow each other on the shared counter hand out disjoint ids, so two copies of a subtree get disjoint ids |
| Remap.Redirect | tls-batgen.py:216-223 | keys are kept; a reference whose value is in the map takes the mapped value; every other entry, references to ids outside the map included, is unchanged |
| Remap.ApplyForest | tls-batgen.py:215-225 | the forest keeps its tags and shape, and its attributes in pre-order are those of the old forest redirected through the map |
| Remap.ApplyEmptyMapping | tls-batgen.py:215-225 | an empty map changes nothing |
| Remap.IdsUnderApply | tls-batgen.py:215-225 | the second pass leaves every id of a node not tagged `network` as the first pass set it |
| Remap.MaskUnderApply | tls-batgen.py:215-225 | the second pass and the blanking of renumbered ids commute, because an id attribute is never redirected; a `network` node's ids are not blanked, and both sides redirect its attributes alike |
| Remap.RedirectOne | tls-batgen.py:190-193 | redirecting one old id on a node is the second pass with a one-entry map |
| Remap.UpdateRelatedIsApply | tls-batgen.py:188-195 | `update_related_ids` over a tree is `apply_related_id_mapping` with the one-entry map |
| Remap.UpdateIds | tls-batgen.py:227-230 | `update_ids` keeps the tree's tags and shape, gives its ids the next consecutive counter values in pre-order, and returns the counter advanced by their number; apart from the renumbered ids, the result is the second pass applied to the input with the map of this call, so a `network` node keeps its own `id` values (lines 198-202) |
| Remap.UpdateIdsAttributes | tls-batgen.py:227-230 | after `update_ids` every key is in place; a reference to an id renumbered in this call holds that id's new value; every entry that is neither an id nor such a reference is unchanged |
| Edits.PruneIsSurvivors | tls-batgen.py:232-236 | at every depth, the i-th node left is the i-th sibling not removed, with its tag and attributes, and with its own children pruned the same way |
| Edits.RemoveWorkqueue | tls-batgen.py:232-236 | the node keeps its tag and attributes; its children are the non-`workqueue` children in order, each keeping its tag and attributes and having its own children pruned the same way; no `workqueue` node is left at any depth |
| Edits.RemoveWorkqueueFixpoint | tls-batgen.py:232-236 | the edit changes nothing exactly when no `workqueue` node lies below; applying it twice equals applying it once |
| Edits.RemoveNewshipFriendly | tls-batgen.py:327-340 | the result lists, in order, the nodes that are not the placeholder ship (last `name` is `NEWSHIP` and last `type` is `FriendlyShip`), each with its tag and attributes and with its children pruned the same way; no placeholder remains at any depth |
| Edits.RemoveNewshipFriendlyFixpoint | tls-batgen.py:327-340 | the edit changes nothing exactly when no placeholder occurs at any depth; it is idempotent |
| Edits.ClearCrewAttrs | tls-batgen.py:239-243 | a pair is kept exactly when it was present and either the node holds no `Type CrewMember` entry or its key is neither `JobId` nor `State` |
| Edits.CrewStaysCrew | tls-batgen.py:239-243 | clearing keeps a crew member a crew member and leaves it no `JobId` or `State` key |
| Edits.ClearCrewAttributes | tls-batgen.py:238-245 | at every depth a node keeps its tag and its number of children, and its attributes become exactly `ClearCrewAttrs` of its old ones, so only a crew member's `JobId` and `State` entries go; no crew member at any depth keeps a `JobId` or `State` entry |
| Edits.ClearCrewIdempotent | tls-batgen.py:238-245 | clearing twice equals clearing once |
| Edits.DropEntities | tls-batgen.py:249 | a pair is kept exactly when it was present and its key is not `entities` in any case |
| Edits.RemoveEntitiesRecursively | tls-batgen.py:247-251 | at every depth a node keeps its tag and its number of children, and its attributes become exactly `DropEntities` of its old ones, so only `Entities` entries go; no node at any depth keeps an `Entities` key |
| Edits.RemoveEntitiesFixpoint | tls-batgen.py:247-251 | the edit changes a forest exactly when some node in it holds an `Entities` key |
| Edits.RemoveEntitiesFromHabitation | tls-batgen.py:253-259 | the tree keeps its shape and the root its attributes; nothing strictly below a `habitation` node, at any depth, keeps an `Entities` key |
| Edits.HabitationIsCleanBelow | tls-batgen.py:253-259 | the source's order of visits, which cleans the subtree of every habitation and then recurses, gives the same tree as one walk that cleans everything below the first habitation on a path |
| Edits.RemoveEntitiesFromHabitationIdentity | tls-batgen.py:253-259 | a tree without a `habitation` node is unchanged |
| Edits.FirstShipAi | tls-batgen.py:349-352 | the index of the first child tagged `shipai` in any case; `None` exactly when there is none |
| Edits.UpdateShipAiLayer | tls-batgen.py:342-352 | without an `id` on the layer, or without a `shipai` child, the layer is unchanged; otherwise only the first `shipai` child changes, and only in its attributes, which become `set_attr(attributes, "Layer", id)` with the layer's first `id`: its `Layer` attribute reads that id, and it gains no key other than `Layer` |
| Edits.UpdateShipAiLayerIdempotent | tls-batgen.py:342-352 | a second update of the same layer changes nothing: it finds the same id and the same `shipai` child, whose `Layer` already holds that id |
| Edits.CalcOffset | tls-batgen.py:261-267 | every offset is a multiple of 100, and the count can be recovered from it (`OffsetIndex`) |
| Edits.OffsetRoundTrip | tls-batgen.py:261-267 | offsets are multiples of 100, and every multiple of 100 is the offset of exactly one count |
| Edits.OffsetAlternates | tls-batgen.py:261-267 | after zero, odd counts go up and even counts go down; the distance from zero never shrinks from one count to the next and is 100 times half the count, rounded up |

## Left out

- `write_file` and `write_header_attrs` (lines 148-160) are left out because they are file output. `NodeText.FileText` is not their output. It is a layout that `parse_file` reads: one line per header pair, then the nodes. `write_file` differs from it in three ways:
  - it writes an empty first line;
  - it pads each quoted key to two more than the longest key's length and adds one more space before the value (line 152);
  - it ends every node's text with a line break.
  `parse_file` skips the empty line, and `splitlines` drops the final line break. NodeText.FileRoundTrip does not cover the padded header lines.
- `process_space_file` and `process_ship_file` (lines 162-170) are left out because they are file input. The model starts from the file's text, at `Parser.ParseFile`.
- `create_layers_for_ship` (lines 269-325) and `main` (lines 354 on) are left out. They do file-name validation, `copy.deepcopy`, directory scans and command-line handling; the edits they call are modelled.
- Tokens.Split: models `shlex.split` for whitespace separators and double quotes only. Backslash escapes and single quotes are not modelled. `to_string` copies both unchanged, so the round-trip lemmas only cover words holding neither (RoundTrip.ShellLiteral).
- Text.Lower: maps ASCII letters only. Python's `str.lower` also folds non-ASCII letters, and some of them lower to ASCII: U+212A KELVIN SIGN lowers to `k`. So the tool treats a tag such as `WOR` + U+212A + `QUEUE` as `workqueue`, and the model does not. The names the tool compares against are ASCII.
- Parser.MatchInline: is not a regex engine. It is the outcome of the inline pattern at line 94, worked out for the stripped line: a quoted or bare tag, then the text up to the final `END`.
- The `inside_network` parameter of `assign_new_ids` and `update_ids` is never read, so it is not modelled.
- `calc_offset` is modelled on natural numbers only, because `main` calls it only with ship counts.
- Parser.ParseNode: reads the attributes of a one-line parent header by pairing the words after the tag directly (Parser.HeaderAttrs). Lines 109-111 instead re-join those words with spaces and split them again (Parser.HeaderAttrsAsWritten). The two agree when no word after the tag holds a space or a quote (Parser.HeaderAttrsAgreeOnPlainWords); see "## Findings".
- RoundTrip.ReadNode: is proved for the corrected header reading of Parser.ParseNode. Under the code as written, a parent whose one-line header holds a value with a space does not read back (Parser.HeaderRequoteLoss). It also needs the well-formed words listed below.
- NodeText.NodeRoundTrip: holds for the corrected header reading and for well-formed trees only.
  - Every node needs a tag.
  - Every tag, key and value must be non-empty and must not contain `END`.
  - They must hold no double quote, no single quote and no backslash.
  - The only whitespace they may hold is the plain space: tabs, line breaks, `\x0b`, `\x0c`, `\xa0` and every other Unicode whitespace character are excluded.
  - No key may start with `BEGIN`.
  - The format cannot carry the other cases: NodeText.EndValueLost and NodeText.EmptyValueShifts give one concrete input each.
- NodeText.FileRoundTrip: has the same restrictions on the header pairs, and reads `NodeText.FileText`, not what `write_file` writes.

## Findings

| source | as written | input that shows it | evidently intended | confidence | as-written member | corrected member |
|---|---|---|---|---|---|---|
| tls-batgen.py:109-111 | the words after the tag are joined with single spaces and split again, which drops the quotes around any word that holds a space | the header `BEGIN Layer      Name "New Ship"` (six spaces after the tag), which is how line 45 of `to_string` writes a layer with children named `New Ship`, gives the attributes `Name New` and `Ship` with an empty value | the words after the tag are paired directly, giving `Name` = `New Ship` | not executed | Parser.HeaderRequoteLoss | Parser.HeaderAttrs |

With the corrected reading, NodeText.NodeRoundTrip reads every well-formed parent back intact, including one whose one-line header holds a quoted value with a space.
