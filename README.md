# Temporal supply-chain graph: a Dafny model of its data core

The dashboard keeps one JSON snapshot of a supply-chain graph per timestamp. Each
snapshot has:

- a `directed` flag;
- the field names of each node type and each relationship type;
- per node type, a list of positional node records;
- one list of positional relationship records.

This project models the logic under the user interface:

- **Decoding.** `TemporalGraph._json_to_graph` turns a snapshot into a networkx
  `DiGraph` or `Graph`.
- **Loading.** `natural_sort` orders the snapshot files, and the
  `lru_cache`-wrapped `load_graph_at_timestamp` loads them.
- **Structural queries.** Ego graph, node details, incident edges, shortest
  path, and ancestors/descendants.
- **Domain queries.** Parts for a product offering, profitable products,
  transport cost, high operating cost, suppliers for a part, supplier
  reliability/costing, supplied part types, and lead time. Each is written
  twice: once against the decoded graph, once against the raw document.
- **Trends over time.** A node attribute averaged over all nodes of a type, one
  node's attribute, and an edge attribute averaged over all edges of a type.

Modules:

- `Json` (json.dfy): the parsed JSON values and documents. It also holds the
  Python operations the core uses on them:
  - indexing with negative positions;
  - `dict.get`;
  - `zip`;
  - `list.index`;
  - comparisons that raise TypeError on a non-number;
  - `sum`.
- `Graphs` (graph.dfy): the observable behaviour of a networkx graph:
  - vertices in insertion order and adjacency in insertion order;
  - `add_node` and `add_edge` merge attributes, with later keys winning;
  - `add_edge` creates missing endpoints as bare vertices;
  - an undirected edge is one dictionary shared by both orientations;
  - `edges()` reports an undirected edge once.
- `Decoder` (decoder.dfy): decoding, as a fold over the records (`Decode`). The
  method `JsonToGraph` keeps the source's nested loops and is proved equal to
  that fold. The lemmas describe the decoded graph in terms of the records
  alone.
- `NaturalSort` (natural_sort.dfy): the timestamp key and the stable sort.
- `SnapshotCache` (snapshot_cache.dfy): the class `TemporalGraph`, holding the
  file list and an LRU cache of at most ten decoded graphs. A call counter
  shows when a file is decoded again.
- `Structural` (structural.dfy): breadth-first levels, reachability, induced
  subgraphs and the five structural queries.
- `ProductOffering` (product_offering.dfy): the parts and profitable-product
  queries over the graph. pages/Type2.py:63-83 and pages/Type2.py:98-111 are
  line-for-line copies of these, so they are modelled once, here.
- `Type2` (type2.dfy): the remaining queries of pages/Type2.py and the raw
  variants of all of them.
- `SupplierQueries` (suppliers.dfy): the queries of pages/Type1.py.
  pages/Supplier.py repeats the reliability and part-type queries line for
  line: reliability at pages/Supplier.py:36-106, part types at
  pages/Supplier.py:110-123.
- `AcrossTime` (across_time.dfy): the three trends, given the snapshot
  documents in file order.

Python exceptions are values: every operation that can raise returns a
`Result` whose `Err` names the exception class. A malformed record is
therefore an error path, not a precondition. `None` from `dict.get` and from
the lookups is `Null`.

## Model

| member | source | states |
|---|---|---|
| Graphs.Empty | main.py:21 | a fresh graph is well formed, has no vertices, and is directed exactly when asked |
| Graphs.AddNodeAttrs | main.py:26 | `add_node` fails exactly for a list or `None` identifier; otherwise it merges the new attributes into the vertex's, later keys winning, and changes no other vertex and no edge |
| Graphs.AddEdgeVertices | main.py:35 | `add_edge` fails exactly when an endpoint is a list or `None`; otherwise missing endpoints become bare vertices and existing vertices keep their attributes |
| Graphs.AddEdgeMerges | main.py:35 | `add_edge` merges the attributes into that edge's dictionary (both orientations when undirected), later keys winning, and leaves every other edge untouched |
| Graphs.AddEdgeValid | main.py:37 | adding an edge keeps the graph well formed |
| Graphs.EdgeListSpec | pages/Type1.py:60 | every pair `G.edges()` reports is an edge; a directed graph reports every edge; an undirected one reports each edge in one orientation |
| Json.ZipSpec | main.py:25 | `dict(zip(names, record))` has exactly the names that have a value, and a name not repeated later maps to the value at its own position |
| Decoder.AddRelationship | main.py:29-37 | the body of the relationship loop, with its `for j` attribute loop, does what one relationship step of the decoding fold does |
| Decoder.JsonToGraph | main.py:20-39 | the imperative decoder returns exactly the decoding fold's result, the error included |
| Decoder.DecodeSpec | main.py:20-39 | decoding succeeds exactly when every record decodes; the graph is then well formed and directed as the document says; its vertices are the node identifiers plus the edge endpoints; vertex attributes are the later-wins merge of that identifier's node records (empty for an endpoint-only vertex); edges and their attributes are the later-wins merge of the relationship records on that pair, either orientation when undirected; a record whose zipped fields include `self` or `node_for_adding` (nodes), or `self`, `u_of_edge` or `v_of_edge` (relationships), raises TypeError, since they clash with the parameters of `add_node`/`add_edge` |
| Decoder.ReservedFieldRaises | main.py:25-26 | a Supplier type whose first field is named `self` makes decoding raise TypeError |
| Decoder.DecodeNodeRecord | main.py:22-26 | every node record of a decodable document yields a vertex keyed by its last value |
| Decoder.DecodeSingleNode | main.py:23-26 | a vertex with one node entry has `names[k] = record[k]` for every position below both lengths whose name is not repeated later, and no other key |
| Decoder.DecodeUniqueNode | main.py:22-26 | a vertex whose identifier ends exactly one node record carries exactly that record zipped with its type's names; relationships add no vertex attributes |
| Decoder.DecodeEdgeRecord | main.py:28-37 | every relationship record yields its edge: the last two values for a known type, the first two for an unknown one; both endpoints are vertices |
| Decoder.EdgeEntryAttrs | main.py:31-34 | a known relationship's attributes zip its type's names with the values before the two endpoints, position 0 (the type name) included |
| Decoder.MergeNodeLater | main.py:26 | after repeated `add_node`, a key holds the value of the last node record for that identifier that writes it |
| Decoder.MergeNodeKeeps | main.py:26 | a key that no later node record writes keeps its earlier value |
| Decoder.MergeEdgeLater | main.py:35 | after repeated `add_edge` on one pair, a key holds the value of the last record on that pair that writes it |
| NaturalSort.TimestampKey | main.py:43 | a name has a key exactly when `timestamp_` followed by a digit occurs in it |
| NaturalSort.FileNameKey | main.py:43 | `timestamp_<n>` followed by a non-digit (or nothing) has key `n` |
| NaturalSort.NaturalSortFiles | main.py:42-43 | the sort fails (AttributeError on `None.group`) exactly when some name has no key |
| NaturalSort.SortPairsSpec | main.py:43 | the insertion sort of `(key, name)` pairs permutes them, orders them by key, and keeps pairs with equal keys in input order |
| NaturalSort.NaturalSortSpec | main.py:42-43 | `natural_sort` returns a permutation of its input, in non-decreasing key order, with names of equal key in their input order |
| SnapshotCache.FileIndex | main.py:16 | `self.files[t]` reads position `t`, or `n + t` for a negative `t`, and raises exactly when `t` is outside `-n .. n-1` |
| SnapshotCache.LoadSpec | main.py:15-18 | the undecorated load is IndexError outside the file list, else the decoding of that snapshot |
| SnapshotCache.WithoutValid | main.py:14 | moving a cache entry to the most recently used end keeps the cache consistent |
| SnapshotCache.TemporalGraph.constructor | main.py:11-12 | a new loader keeps the file list, with an empty cache and no decodes |
| SnapshotCache.TemporalGraph.Load | main.py:14-18 | returns the undecorated result; a hit returns the stored graph without decoding and makes it the most recent; a miss decodes once and stores a success, evicting the least recently used of ten; an exception is not stored |
| Structural.HopsSpec | structural_queries.py:68 | `v` is within `k` breadth-first levels of `s` exactly when some walk of at most `k` steps leads from `s` to `v` |
| Structural.ReachSpec | structural_queries.py:205-208 | the saturated levels hold exactly the ends of walks of any length |
| Structural.InducedSpec | structural_queries.py:68 | the induced subgraph holds exactly the given vertices with their attributes and every edge between two of them with its attributes |
| Structural.InducedValid | structural_queries.py:68 | an induced subgraph of a well-formed graph is well formed |
| Structural.EgoGraphSpec | structural_queries.py:65-70 | NodeNotFound exactly when the centre is missing; otherwise the ego graph has exactly the vertices reachable along edge direction in at most `radius` steps, with their attributes, and every edge among them |
| Structural.EgoGraphCentre | structural_queries.py:68 | a radius of zero or less gives the centre alone |
| Structural.NodeDetails | structural_queries.py:73-78 | the lookup succeeds exactly for a vertex, KeyError otherwise |
| Structural.NodeDetailsDecoded | structural_queries.py:73-78 | on a decoded snapshot, the details exist exactly for node identifiers and edge endpoints, and are the later-wins merge of that identifier's node records |
| Structural.RetrieveEdgeAttributes | structural_queries.py:81-94 | NetworkXError exactly for a missing vertex; otherwise one entry per neighbour (successor when directed), in adjacency order, each from the vertex, to that neighbour, with that edge's attributes |
| Structural.ShortestPathSpec | structural_queries.py:97-112 | a missing endpoint is reported as such; a path found is a walk from source to destination whose length is its step count, and no walk is shorter; "no path" means no walk at all |
| Structural.AncestorsDescendants | structural_queries.py:197-202 | TypeError exactly for an undirected graph, checked first, then ValueError exactly for a missing vertex |
| Structural.AncestorsDescendantsSpec | structural_queries.py:205-208 | descendants are the ends of non-trivial forward walks, ancestors the starts of walks into the vertex; the vertex is in neither |
| Structural.AncestorsDescendantsDual | structural_queries.py:205-208 | `y` is a descendant of `x` exactly when `x` is an ancestor of `y` |
| ProductOffering.PartsForOffering | product_offering_queries.py:1-21 | the result is exactly the Parts vertices with a PartsToFacility edge into a Facility vertex that has a FacilityToProductOfferings edge into the offering (a set, so each part once) |
| ProductOffering.NoPartsForMissingOffering | product_offering_queries.py:10 | an offering that is not a vertex has no facility making it, so the parts result is empty |
| ProductOffering.Visit | product_offering_queries.py:30-36 | one vertex raises TypeError exactly when a present cost is not a number, or the demand is not a number once the cost passed; it is selected exactly when it is a ProductOffering with numeric cost ≤ the ceiling (missing cost never passes) and numeric demand (0 when missing) ≥ the floor |
| ProductOffering.ProfitableProducts | product_offering_queries.py:25-38 | the loop returns the rows of the vertices in vertex order, stopping at the first exception |
| ProductOffering.CollectSpec | product_offering_queries.py:25-38 | the query fails exactly when some vertex raises (TypeError); otherwise the rows are exactly `(v, cost, demand)` for the selected vertices, each vertex at most once |
| Type2.EdgeField | pages/Type2.py:45-52 | the graph lookup gives the field of an existing SupplierToWarehouse edge, `None` otherwise |
| Type2.RouteMatch | pages/Type2.py:57 | the raw test raises IndexError exactly on an empty record or a one-value SupplierToWarehouse record; it holds exactly for a SupplierToWarehouse record ending in the supplier and the warehouse |
| Type2.TransportCostJson | pages/Type2.py:55-59 | the raw loop returns what the first-match scan gives with `edge[1]` |
| Type2.FirstRouteSpec | pages/Type2.py:56-59 | no match gives `None`; otherwise the position-`k` value of the first matching record |
| Type2.EdgeFieldAgrees | pages/Type2.py:45-59 | on a route that only one record describes, when the schema puts the field at position `k`, the graph and raw lookups both return that record's value |
| Type2.TransportCostDiverges | pages/Type2.py:45-59 | with two records on one route, the graph version returns the last cost (7) and the raw version the first (5) |
| Type2.Hit | pages/Type2.py:89-93 | one record of a join step raises IndexError exactly when it is empty or a one-value record equal to the target, and yields its `edge[-2]` exactly when it has the relationship type and ends in the target |
| Type2.TwoHop | pages/Type2.py:87-95 | the nested raw loops compute the two-hop join |
| Type2.PartsJson | pages/Type2.py:87-95 | raw parts for an offering is the join FacilityToProductOfferings → PartsToFacility |
| Type2.SuppliersJson | pages/Type2.py:162-173 | raw suppliers for a part is the join WarehouseToParts → SupplierToWarehouse |
| Type2.GatherSpec | pages/Type2.py:91-94 | the inner loop fails only with IndexError or TypeError and not on readable records; it adds exactly the sources of matching records |
| Type2.JoinSpec | pages/Type2.py:87-95 | the join fails only with IndexError or TypeError and not on readable records; it holds exactly the second-hop sources of records into a first-hop source |
| Type2.LinkedRecords | main.py:28-37 | on a comparable snapshot, the decoded graph has an edge of relationship type `rel` from `u` to `v` exactly when some relationship record of that type runs from `u` to `v` |
| Type2.SuppliersAgree | pages/Type2.py:145-173 | on a comparable snapshot containing the part, the raw suppliers join succeeds and equals the graph query's result |
| Type2.PartsAgree | pages/Type2.py:87-95 | on a comparable snapshot whose FacilityToProductOfferings and PartsToFacility sources are Facility and Parts vertices, the raw parts join succeeds and holds exactly the parts the graph query (product_offering_queries.py:1-21) returns |
| Type2.OfferingRow | pages/Type2.py:117-123 | IndexError for a record shorter than four values; TypeError when `node[2]` is not a number, or `node[3]` is not once the cost passed; selected exactly when cost ≤ ceiling and demand ≥ floor, as `(node[-1], node[2], node[3])` |
| Type2.ProfitableJson | pages/Type2.py:115-125 | KeyError without a ProductOffering bucket; otherwise the rows of its records in order |
| Type2.OfferingRowsSpec | pages/Type2.py:115-125 | the raw query fails exactly when some record raises; otherwise it returns exactly the selected records' rows, at most one per record |
| Type2.FacilityPair | pages/Type2.py:129-132 | TypeError exactly for a Facility whose operating cost (0 when missing) is not a number; selected exactly for a Facility whose operating cost exceeds the threshold |
| Type2.FacilityPairsSpec | pages/Type2.py:128-133 | the comprehension fails exactly when some vertex raises; otherwise it lists exactly the selected vertices with the looked-up value |
| Type2.HighCostNodesAsWritten | pages/Type2.py:128-133 | as written, every listed vertex is a high-cost Facility, and its second element is `None` unless it has a key literally named `operating_cost,0` |
| Type2.HighCostNodesLosesCost | pages/Type2.py:130 | one facility with operating cost 6000 and threshold 5000 gives `[F1, None]` as written and `[F1, 6000]` corrected |
| Type2.HighCostNodesCorrectedSpec | pages/Type2.py:128-133 | corrected, the query raises exactly when the original does; it lists exactly the high-cost facilities, each with its operating cost, which exceeds the threshold |
| Type2.FacilityRecordPairsSpec | pages/Type2.py:136-141 | the raw query fails exactly when some record has no numeric `node[-2]`; otherwise it lists exactly `[node[-1], node[-2]]` for the records with `node[-2]` above the threshold |
| Type2.SuppliersGraphSpec | pages/Type2.py:145-159 | AttributeError exactly on an undirected graph (`in_edges`); on a directed graph containing the part, exactly the sources of SupplierToWarehouse edges into a warehouse that has a WarehouseToParts edge into the part |
| Type2.NoSuppliersForMissingPart | pages/Type2.py:145-159 | a part id that names no vertex (nor does any of its characters) gives no suppliers |
| SupplierQueries.EdgeRow | pages/Type1.py:60-70 | one edge raises TypeError exactly for a SupplierToWarehouse edge whose cost (0 when missing) is not a number, or whose source's reliability is not once the cost passed; it gives `(u, reliability, cost)` exactly when cost ≥ the minimum and reliability ≤ the maximum |
| SupplierQueries.ReliabilityCosting | pages/Type1.py:42-72 | the loop returns the rows of `G.edges()` in order, stopping at the first exception (pages/Supplier.py:36-66 is the same code) |
| SupplierQueries.EdgeRowsSpec | pages/Type1.py:60-70 | the fold fails exactly when some edge raises; otherwise it adds at most one row per edge, and exactly the rows of qualifying edges |
| SupplierQueries.ReliabilityCostingSpec | pages/Type1.py:42-72 | faults are TypeError; each row is a supplier with a qualifying SupplierToWarehouse edge, its reliability and that edge's cost; on a directed graph every qualifying edge has its row, so a supplier may repeat |
| SupplierQueries.ReliabilityCostingComplete | pages/Type1.py:42-72 | on a directed graph, every SupplierToWarehouse edge whose cost and source reliability pass the thresholds gives the row (supplier, reliability, cost) |
| SupplierQueries.EdgeRowsFault | pages/Type1.py:64-69 | the graph query raises nothing but TypeError |
| SupplierQueries.FirstReliability | pages/Type1.py:103-106 | the inner search raises only IndexError (an empty record, or a matching record without a fourth value) |
| SupplierQueries.FirstReliabilitySpec | pages/Type1.py:103-106 | the inner search finds nothing exactly when every record is non-empty and none ends in the id; a value found is `nodes[3]` of the first record ending in the id |
| SupplierQueries.SearchReliability | pages/Type1.py:103-106 | the inner `for`/`break` loop returns what the record search specifies |
| SupplierQueries.JsonStep | pages/Type1.py:93-110 | corrected, one record never raises UnboundLocalError; a reported row's reliability is the value carried on to the next record |
| SupplierQueries.ReliabilityCostingJson | pages/Type1.py:76-112 | the raw loops, inner `break` included, return what the record fold gives as written, threading `reliability` across records (pages/Supplier.py:70-106 is the same code) |
| SupplierQueries.CorrectedStep | pages/Type1.py:93-110 | corrected, one record raises exactly when it is empty, or is a SupplierToWarehouse record with no cost, a non-numeric cost, or (cost passing) no Supplier bucket, a failing Supplier search or a non-numeric reliability; it reports a row exactly when it qualifies, as (supplier, own reliability, cost) |
| SupplierQueries.CorrectedRowsOk | pages/Type1.py:76-112 | corrected, the query raises exactly when some record raises, with IndexError, TypeError or KeyError only (never UnboundLocalError) |
| SupplierQueries.CorrectedRowsPrefix | pages/Type1.py:76-112 | corrected, a successful query keeps the rows it starts from and adds at most one per record |
| SupplierQueries.CorrectedRowsSpec | pages/Type1.py:93-110 | with each record reading its own supplier's reliability, every row is a qualifying record's supplier with that supplier's reliability (0 without a record) and the record's cost |
| SupplierQueries.CorrectedRowsComplete | pages/Type1.py:93-110 | corrected, every qualifying record's row is in a successful result |
| SupplierQueries.CorrectedQuerySpec | pages/Type1.py:76-112 | corrected, on a snapshot: raises exactly when some record raises; otherwise at most one row per record, and the rows are exactly those of the qualifying records |
| SupplierQueries.AsWrittenAgrees | pages/Type1.py:93-110 | when every qualifying record's supplier has a Supplier record, the query as written equals the corrected one |
| SupplierQueries.StaleReliabilityReported | pages/Type1.py:103-108 | supplier S2 without a record is reported with S1's reliability 0.5 as written, and with 0 corrected |
| SupplierQueries.UnboundReliability | pages/Type1.py:103-108 | a first qualifying record whose supplier has no record raises UnboundLocalError as written, and is reported with 0 corrected |
| SupplierQueries.SuppliedPartTypesJson | pages/Type1.py:125-129 | KeyError without a Supplier bucket; otherwise the first-match scan (pages/Supplier.py:119-123 is the same code) |
| SupplierQueries.FirstPartTypesSpec | pages/Type1.py:125-129 | the raw scan returns `nodes[-2]` of the first record ending in the id, and `None` when there is none |
| SupplierQueries.PartTypesGraph | pages/Type1.py:116-121 | on a decoded snapshot, the graph lookup of a Supplier with one node record is that record's `supplied_part_types` field, by name (pages/Supplier.py:110-115 is the same code) |
| SupplierQueries.PartTypesRaw | pages/Type1.py:125-129 | on a decoded snapshot, the raw lookup is the second-to-last value of the first record with the id |
| SupplierQueries.PartTypesAgree | pages/Type1.py:116-129 | for a supplier with one node record, graph and raw versions return the same value when the field names put `supplied_part_types` second to last |
| SupplierQueries.PartTypesDiverge | pages/Type1.py:116-129 | with a schema that puts the part types first, the graph version returns the part types and the raw version the reliability |
| SupplierQueries.LeadTimeJson | pages/Type1.py:144-148 | the raw loop returns `edge[2]` of the first matching record, `None` without one |
| SupplierQueries.LeadTimeAgrees | pages/Type1.py:132-148 | on a route that only one record describes, with `lead_time` at position 2, graph and raw lookups both return that record's lead time |
| AcrossTime.NodeColumn | pages/AcrossTime.py:55-59 | KeyError when the type has records but no declared names; IndexError when the attribute is declared and a record is too short; empty when the attribute is not declared; otherwise each record's value at the attribute's first position |
| AcrossTime.EdgeColumn | pages/AcrossTime.py:162-166 | IndexError exactly when some record is empty, or is selected and too short; otherwise exactly the attribute values of the records of that type, at most one per record, none when the attribute is undeclared |
| AcrossTime.EdgeColumnPositions | pages/AcrossTime.py:162-166 | a successful edge column lists one value per selected record, in record order: its `j`-th value is the attribute of the `j`-th selected record, and every selected record has its place |
| AcrossTime.Mean | pages/AcrossTime.py:61-63 | no value gives no point; a non-number gives TypeError; otherwise the arithmetic mean |
| AcrossTime.Step | pages/AcrossTime.py:53-63 | a snapshot is skipped when the type is absent or the attribute undeclared; faults are KeyError, IndexError or TypeError |
| AcrossTime.NodeTrend | pages/AcrossTime.py:40-63 | the loop over snapshots returns the trend fold's series |
| AcrossTime.EdgeTrend | pages/AcrossTime.py:149-176 | the loop returns the edge trend fold's series, and reports "no data" exactly when that series is empty |
| AcrossTime.TrendSeries | pages/AcrossTime.py:47-63 | the trend fails exactly when some snapshot raises; otherwise its timestamps strictly increase, there is at most one point per snapshot, and a point `(t, m)` is there exactly when snapshot `t` gives mean `m` |
| AcrossTime.TrendIncreasing | pages/AcrossTime.py:47-63 | starting from points before `t`, the timestamps stay strictly increasing |
| AcrossTime.TrendOk | pages/AcrossTime.py:47-63 | the scan from snapshot `t` fails exactly when some snapshot from `t` on raises |
| AcrossTime.TrendPrefix | pages/AcrossTime.py:47-63 | a successful scan keeps the points it starts from and adds at most one per snapshot |
| AcrossTime.TrendSound | pages/AcrossTime.py:47-63 | every point the scan adds is `(u, m)` for a snapshot `u` from `t` on that gives mean `m` |
| AcrossTime.TrendComplete | pages/AcrossTime.py:47-63 | every snapshot from `t` on that gives a mean has its point in a successful scan |
| AcrossTime.BucketSample | pages/AcrossTime.py:108-120 | one node type contributes the attribute of its first record holding the id anywhere; when such a record exists: KeyError for an undeclared type, `None` for an undeclared attribute, IndexError for a record too short for the attribute's position |
| AcrossTime.NodeHistory | pages/AcrossTime.py:93-124 | the three nested loops, with the `break` leaving one bucket only, return the single-node history |
| AcrossTime.BucketSamplesPrefix | pages/AcrossTime.py:108-120 | over one snapshot's buckets, the scan fails exactly when a bucket raises, and otherwise keeps the samples already taken |
| AcrossTime.BucketSamplesSound | pages/AcrossTime.py:108-120 | every sample the bucket scan adds is `(t, v)` for a bucket that gives `v` |
| AcrossTime.BucketSamplesComplete | pages/AcrossTime.py:108-120 | every value a bucket gives is sampled at `t` |
| AcrossTime.HistorySpec | pages/AcrossTime.py:93-124 | "not found" exactly when no bucket of any snapshot gives a value; otherwise the samples come in non-decreasing timestamp order and are exactly the values the buckets give |
| AcrossTime.SharedIdentifierRepeats | pages/AcrossTime.py:110 | a Parts record that names supplier S1 matches too, so timestamp 0 appears twice in S1's history |

## Left out

- The Streamlit interface is not modelled: every `main`, widgets, messages and HTML. Neither are `encode_image`, the `time_and_memory` decorators, plotly figures and layouts, `glob` file discovery, and file reading with `json.load`. Snapshots are given as already-parsed `Document` values, and the trends take the list of documents in file order.
- JSON numbers are modelled as `real`: there is no floating-point rounding, no distinction between int and float, and no `inf`/`nan` literal. Booleans fold into the numbers 1 and 0, as Python's comparisons treat them.
- A JSON object with a repeated key: `json.load` keeps only the last occurrence, whereas the model keeps every occurrence in order. Lookups (`Json.Bucket`) read the first occurrence. AcrossTime.NodeHistory, AcrossTime.BucketSamples and AcrossTime.HistorySpec visit every occurrence of a repeated `node_values` key, where Python sees only the last. The model therefore agrees with the source only on documents without repeated keys.
- Python `set` and `list(set)` order is not modelled: the set-valued queries return Dafny sets.
- Structural.Induced: vertices and neighbours keep the graph's order. networkx's subgraph view iterates the kept set when it holds fewer than half the vertices, so the order of the ego graph's vertices and edges can differ from networkx's. The sets are the same.
- The text of exception messages is not modelled: only the exception class is kept. The path query's node-not-found string is likewise reduced to a case.
- Structural.ShortestPath: every edge costs 1. The source passes `weight="weight"`, and no edge this decoder builds is guaranteed to carry `weight`, so a snapshot that does give edges a numeric `weight` is not modelled. Among several shortest paths, the model takes at each step the predecessor that comes first in vertex order. networkx with `weight="weight"` runs bidirectional Dijkstra, whose tie-breaking is its own, so the path returned can differ while having the same length.
- Structural.EgoGraphSpec: the ego graph follows edge direction, as `nx.ego_graph` does by default. As in networkx, a self-loop on the centre is kept at radius 0.
- SnapshotCache.TemporalGraph.Load: the `lru_cache` key includes `self` and is shared between instances; the model keys on the timestamp of one instance. Cached graphs are values here, so mutation of a returned graph by a caller (aliasing) is not captured.
- NaturalSort.TimestampKey: `\d` is ASCII digits only (Python's `re` also matches other Unicode decimal digits).
- main.py:119, where a zero-length path is shown as an error, is interface code and is not modelled.
- pages/Parts.py holds no query logic and is not part of this model.
- Type2.SuppliersAgree and Type2.PartsAgree hold on comparable snapshots only (Type2.Comparable). These are directed and decodable. Every relationship record is of a declared type that names `relationship_type` first and at no other zipped position, and has a value before its endpoints. No two records share a (source, target) pair. Outside these, the two versions can differ. An undirected graph has no `in_edges`. A later record on the same pair overwrites the relationship type in the graph, while the raw join still sees both records. A type that does not name `relationship_type` first gives its edges another type. The parts comparison also needs every FacilityToProductOfferings source to be a Facility vertex and every PartsToFacility source a Parts vertex, because only the graph version checks `node_type`. The suppliers comparison needs the part to be a vertex (see Type2.NoSuppliersForMissingPart).
- Type2.NoSuppliersForMissingPart: it needs every one-character string of the part id to be a non-vertex too, because networkx's `in_edges(nbunch)` iterates a string nbunch that is not a vertex character by character.
- AcrossTime.Step: the contract states the skip and fault cases. The mean itself is stated through AcrossTime.Mean over the column. For a node trend the column is pinned by AcrossTime.NodeColumn; for an edge trend it is pinned by AcrossTime.EdgeColumnPositions, so a value counts as often as selected records carry it.
- Type2.EdgeField, Type2.TransportCostJson, Type2.PartsJson, Type2.SuppliersJson, Type2.Bunch and Type2.SuppliersGraph take their vertex identifiers as strings (`Str(id)`). The pages fill these identifiers from select boxes over graph vertices, and a vertex can be any hashable last value of a record, a number included. These queries are modelled for string identifiers only, and their contracts say nothing about a numeric one.
- SupplierQueries.SuppliedPartTypes, SupplierQueries.SuppliedPartTypesJson, SupplierQueries.LeadTime and SupplierQueries.LeadTimeJson: string identifiers only, as above.
- AcrossTime.FirstHolding, AcrossTime.BucketSample, AcrossTime.History and AcrossTime.NodeHistory: the node identifier is a string only, as above.
- ProductOffering.Makes and ProductOffering.PartsForOffering: the product offering is a string identifier only, as above.

## Findings

| source | as written | input that shows it | evidently intended | confidence | as-written member | corrected member |
|---|---|---|---|---|---|---|
| pages/Type2.py:130 | the pair reads `attrs.get("operating_cost,0")`, a key no record has, so every pair's cost is `None` | one Facility F1 with operating cost 6000, threshold 5000: `[[F1, None]]` | `attrs.get("operating_cost", 0)`, giving `[[F1, 6000]]` | high (not executed) | Type2.HighCostNodesLosesCost | Type2.HighCostNodesCorrectedSpec |
| pages/Type1.py:103-108 | a supplier with no Supplier record is reported with the `reliability` left over from an earlier edge | S1 (reliability 0.5) and S2 (no record), both routes costing 900, thresholds 0.8 and 800: S2 reported with 0.5 | the supplier's own reliability, 0 when it has no record, as the graph version does | high (not executed) | SupplierQueries.StaleReliabilityReported | SupplierQueries.CorrectedQuerySpec |
| pages/Type1.py:103-108 | when the first qualifying edge's supplier has no record, `reliability` is read before assignment | only S2→W1 costing 900: UnboundLocalError | S2 reported with reliability 0 | high (not executed) | SupplierQueries.UnboundReliability | SupplierQueries.CorrectedQuerySpec |
