# OpenDRIVE 1.4 reader and validator: a Dafny model

This project models the core of an ASAM OpenDRIVE (`.xodr`, revision 1.4) road-network reader and validator, and proves properties of it. The model covers:

- **Lane cross-sections.** Lane IDs and the ID-to-index bijection, width-polynomial selection by s-offset, lateral accumulation of lane widths into boundaries, s-offset validation, the ID checks made while lanes are parsed, and lane-section ordering and end chaining.
- **Road-network topology.** Contact points and link types, road links and neighbours, junction connections and lane-link targets, id-to-index reference resolution, map keys and their order, and the junction-membership, road-link and lane-link validators. It also covers the enumeration of road links, proved to report exactly once the pair of two roads outside junctions that name each other, a connecting road's link to another road, and a connection listed once in a second junction, the last two when the far road does not link back; and `XodrMap::validate`.
- **The table-driven XML parser engine.** Sorted parser tables searched by name, the visited mask, the multiplicity rules for child elements and attributes, error records with their fatality and invalidation bits, and the string-to-enum decoders.
- **Exact numerics over `real`.** `Poly3` evaluation, derivatives, antiderivative, sum, translation and scaling; the plan-view binary search `geometryContaining` and s-range clamping; bounding rectangles.
- **The OBJ segment emitter of the viewer.** Boundary selection, vertex emission and face indices.

C++ exceptions become a failure value. Assertions become preconditions, and NaN-as-absent becomes `Option`. The XML cursor is abstracted to the sequence of child-element or attribute names it yields, each paired with the value its parser produces.

## Model

| member | source | states |
|---|---|---|
| LaneIds.Pow2 | hackatum-2019/src/xodr/lane_id.h:161 | powers of two used for the 32-bit bit patterns are at least 1 |
| LaneIds.Pow2Add | hackatum-2019/src/xodr/lane_id.h:161 | `2^(m+n) = 2^m 2^n`, which splits a bit pattern into its top bit and the rest |
| LaneIds.ToUnsigned | hackatum-2019/src/xodr/lane_id.h:161 | a 32-bit int's two's-complement pattern fits in 32 bits and has its top bit set exactly when the int is negative |
| LaneIds.XorTopBit | hackatum-2019/src/xodr/lane_id.h:161 | the top bit of a bitwise xor is set exactly when the operands' top bits differ |
| LaneIds.SameSideIffSameSign | hackatum-2019/src/xodr/lane_id.h:157-162 | for non-zero ids, `(a ^ b) >= 0` on 32-bit ints holds exactly when both ids have the same sign |
| LaneIds.Parse | hackatum-2019/src/xodr/lane_id.h:84-95 | a number decodes exactly when it is below the invalid tag (INT_MAX - 1), keeps its value, and so never equals the null tag |
| LaneIds.NullOpt | hackatum-2019/src/xodr/lane_id.h:217-266 | the null optional converts to false and compares equal to the raw INT_MAX |
| LaneIds.FromId | hackatum-2019/src/xodr/lane_id.h:212-277 | wrapping an id gives an optional that is true (unless the id is the null tag itself), dereferences to the id and compares equal to exactly that integer |
| LaneIds.ParseOpt | hackatum-2019/src/xodr/lane_id.h:227-230 | a parsed optional succeeds exactly when the id parses, and then holds a value that dereferences to it |
| LaneIds.NullDiffersFromParsed | hackatum-2019/src/xodr/lane_id.h:235-239 | optionals compare by raw value, so a parsed optional never equals the null optional |
| ParseResults.XmlParseError.Description | hackatum-2019/src/xodr/xml/xml_parse_result.cpp:7-32 | the invalid-value message is "Invalid value V for attribute N"; the other five begin "XML element <" followed by the element name |
| ParseResults.ElementMessage | hackatum-2019/src/xodr/xml/xml_parse_result.cpp:12-29 | an element message starts with "XML element <" and the name, and ends with the given tail |
| ParseResults.DescriptionEmbedsValue | hackatum-2019/src/xodr/xml/xml_parse_result.cpp:12-29 | the attribute messages end with the attribute name and the child-element messages with `<child>` |
| ParseResults.InvalidationBits | hackatum-2019/src/xodr/xodr_reader.h:17-26 | GEOMETRY and CONNECTIVITY are distinct single bits and ALL sets both |
| ParseResults.XodrParseError.Description | hackatum-2019/src/xodr/xodr_reader.cpp:5-18 | a message error describes itself by its text; an XML error by the XML error's description |
| ParseResults.PlainError | hackatum-2019/src/xodr/xodr_reader.h:53 | the one-argument constructor keeps the data and invalidates neither geometry nor connectivity |
| ParseResults.MessageError | hackatum-2019/src/xodr/xodr_reader.cpp:11-26 | a free-text error is fatal and its description is its text |
| ParseResults.FromValue | hackatum-2019/src/xodr/xml/xml_parse_result.h:89-92 | a result built from a value has that value and no errors |
| ParseResults.WithWarning | hackatum-2019/src/xodr/xml/xml_parse_result.h:100 | a result built from a value and a warning has that value and exactly that one error |
| ParseResults.FromError | hackatum-2019/src/xodr/xml/xml_parse_result.h:107 | a result built from an error has the default value and exactly that one error |
| ParseResults.AppendErrors | hackatum-2019/src/xodr/xml/xml_parse_result.h:115-119 | the child's errors follow the existing ones in order, and the value is unchanged |
| ParseResults.HasFatalErrors | hackatum-2019/src/xodr/xml/xml_parse_result.h:146-157 | the scan reports true exactly when some error is fatal |
| ParseResults.ValidityAppend | hackatum-2019/src/xodr/xodr_reader.h:137-158 | geometry and connectivity validity of a concatenation is the conjunction of the parts' |
| ParseResults.ExtractValue | hackatum-2019/src/xodr/xodr_reader.h:111-121 | the value is returned exactly when no error invalidates geometry or connectivity; otherwise the failure carries the first such error's description |
| ParseResults.FreshReader | hackatum-2019/src/xodr/xodr_reader.h:219 | a new reader hands out global lane index 0 first |
| ParseResults.NewGlobalLaneIndex | hackatum-2019/src/xodr/xodr_reader.h:206-214 | `newGlobalLaneIndex` returns the peeked value and the next peek is one more |
| ParseResults.GlobalLaneIndicesConsecutive | hackatum-2019/src/xodr/xodr_reader.h:206-214 | `k` successive calls hand out `k` consecutive indices from the peeked value and advance the counter by `k` |
| LaneTypes.Parse | hackatum-2019/src/xodr/lane_section_parser.cpp:9-118 | a string that is not one of the 25 keywords fails with "Not a valid lane type: " and the string |
| LaneTypes.ParseKeyword | hackatum-2019/src/xodr/lane_section_parser.cpp:9-118 | every lane type decodes from its own keyword |
| LaneTypes.ParseOnlyKeywords | hackatum-2019/src/xodr/lane_section_parser.cpp:9-118 | a successful decode returns the lane type whose keyword is exactly the input, so the decoder accepts only the keywords |
| LaneTypes.KeywordInjective | hackatum-2019/src/xodr/lane_section_parser.cpp:9-118 | distinct lane types have distinct keywords, so the decoder is injective |
| LaneSections.Lane.Link | hackatum-2019/src/xodr/lane_section.cpp:313-326 | `link(type)` returns the id whose optional is the stored predecessor or successor, never the null tag |
| LaneSections.NewLane | hackatum-2019/src/xodr/lane_section.cpp:8 | a new lane has neither a predecessor nor a successor link, and keeps the id, widths and global index it is given |
| LaneSections.LaneSection.NumRightLanes | hackatum-2019/src/xodr/lane_section.h:496-506 | `numLeftLanes() + numRightLanes() == lanes().size()` |
| LaneSections.LaneIndexToId | hackatum-2019/src/xodr/lane_section.cpp:215-238 | every index maps to a non-zero id in `[-numRightLanes, numLeftLanes]`, positive exactly for the first `numLeftLanes` indices |
| LaneSections.LaneIdToIndex | hackatum-2019/src/xodr/lane_section.cpp:240-267 | for a non-zero id in `[-numRightLanes, numLeftLanes]` the index is a valid lane index, among the left lanes exactly when the id is positive |
| LaneSections.IndexToIdRoundTrip | hackatum-2019/src/xodr/lane_section.cpp:215-267 | index to id and back is the identity |
| LaneSections.IdToIndexRoundTrip | hackatum-2019/src/xodr/lane_section.cpp:215-267 | id to index and back is the identity |
| LaneSections.LaneById | hackatum-2019/src/xodr/lane_section.h:538-548 | `laneById(id)` is the lane at `laneIdToIndex(id)`, and in a section numbered by the OpenDRIVE convention it is the lane with that id |
| LaneSections.Advance | hackatum-2019/src/xodr/lane_section.cpp:72-76 | the cursor only moves forward, past polynomials whose s-offset the parameter has reached, and stops before the first one still ahead |
| LaneSections.AdvanceSkip | hackatum-2019/src/xodr/lane_section.cpp:72-76 | starting the cursor later, at a polynomial it would pass anyway, gives the same result |
| LaneSections.AdvanceStopsAt | hackatum-2019/src/xodr/lane_section.cpp:72-76 | the cursor stops exactly at the last polynomial reached when the next one is ahead |
| LaneSections.AdvanceSelects | hackatum-2019/src/xodr/lane_section.cpp:62-76 | with sorted s-offsets a cursor started at the first polynomial lands on the last one whose s-offset is at most the parameter, or on the first |
| LaneSections.WidthAtSCoord | hackatum-2019/src/xodr/lane_section.cpp:365-381 | `widthAtSCoord` evaluates the selected polynomial (the last whose s-offset is at most `s`, else the first) at `s` minus its s-offset |
| LaneSections.Cursor | hackatum-2019/src/xodr/lane_section.cpp:62-84 | the cursor carried across one lane's samples always points at a polynomial of the lane |
| LaneSections.CursorIsFreshSearch | hackatum-2019/src/xodr/lane_section.cpp:62-84 | along non-decreasing samples, the cursor that is never reset agrees with a fresh search from the first polynomial |
| LaneSections.SampleWidthIsWidthAt | hackatum-2019/src/xodr/lane_section.cpp:365-381 | along non-decreasing samples the tessellation uses the same width as `widthAtSCoord` |
| LaneSections.OuterBoundary | hackatum-2019/src/xodr/lane_section.cpp:53-88 | each outer boundary sample is the inner one moved by the lane's selected width, outward on the lane's side |
| LaneSections.AdvanceCursor | hackatum-2019/src/xodr/lane_section.cpp:72-76 | the inner loop leaves the cursor where the cursor function says |
| LaneSections.TessellateLaneBoundaries | hackatum-2019/src/xodr/lane_section.cpp:10-88 | `lanes + 1` boundaries, each as long as the reference tessellation; boundary `numLeftLanes` is all zeros; boundary `i` minus boundary `i+1` is lane `i`'s selected width at every sample, on both sides |
| LaneSections.Params | hackatum-2019/src/xodr/lane_section.cpp:68 | the sample parameter is the reference s-coordinate minus the section start |
| LaneSections.BoundariesOrdered | hackatum-2019/src/xodr/lane_section.h:377-381 | with non-negative widths the boundaries run from left to right: lateral positions never increase with the boundary index |
| LaneSections.ValidateAttribSCoords | hackatum-2019/src/xodr/lane_section.cpp:328-352 | no error exactly when the s-offsets lie in `[0, maxSOffset)` and strictly increase; the range message exactly when the list is non-empty and its first is negative or its last at least `maxSOffset`; otherwise the order message |
| LaneSections.AdjacentIncreasingIsValid | hackatum-2019/src/xodr/lane_section.cpp:336-351 | in-range ends and strictly increasing neighbours make every offset in range and every pair increasing |
| LaneSections.IncreasingSpan | hackatum-2019/src/xodr/lane_section.cpp:343-351 | strictly increasing neighbours make every earlier offset smaller than every later one |
| LaneSections.FirstFailure | hackatum-2019/src/xodr/lane_section.cpp:354-363 | the first failing attribute list is reported, and none exactly when all lists are valid |
| LaneSections.ValidateLane | hackatum-2019/src/xodr/lane_section.cpp:354-363 | a lane passes exactly when all seven attribute lists have valid s-offsets |
| LaneSections.ValidateSection | hackatum-2019/src/xodr/lane_section.cpp:269-276 | a section passes exactly when every lane passes against `endS - startS` |
| LaneSections.ValidateLanes | hackatum-2019/src/xodr/lane_section.cpp:272-275 | lanes pass exactly when each one does |
| LaneSections.ValidatedWidthsSorted | hackatum-2019/src/xodr/lane_section.cpp:354-356 | a validated lane's width polynomials have sorted s-offsets, so the selection rule is well defined |
| LaneSectionParser.LeftChecks | hackatum-2019/src/xodr/lane_section_parser.cpp:177-195 | a left lane adds no check error exactly when its geometry did not parse cleanly or its id is positive and one below the previous lane's; at most two errors, each invalidating everything |
| LaneSectionParser.RightChecks | hackatum-2019/src/xodr/lane_section_parser.cpp:207-232 | a right lane adds no check error exactly when its geometry did not parse cleanly or its id is negative and is -1 after nothing or lane 1, else one below the previous lane's; at most two errors, each invalidating everything |
| LaneSectionParser.AddLeftLane | hackatum-2019/src/xodr/lane_section_parser.cpp:173-201 | a left lane is appended and counted in `numLeftLanes_` whatever its errors, which follow the section's, then the check errors |
| LaneSectionParser.AddRightLane | hackatum-2019/src/xodr/lane_section_parser.cpp:203-237 | a right lane is appended but not counted, with its errors and the check errors appended |
| LaneSectionParser.CheckCenter | hackatum-2019/src/xodr/lane_section_parser.cpp:139-150 | `<center>` leaves the lanes alone and adds an error, exactly one and invalidating everything, exactly when there are lanes and the last is not lane 1 |
| LaneSectionParser.ParseItems | hackatum-2019/src/xodr/lane_section_parser.cpp:158-171 | handling the children only appends errors, keeps the lanes already stored as a prefix, and raises `numLeftLanes_` (which starts at 0) by exactly the number of left lanes |
| LaneSectionParser.ParseItemsAppend | hackatum-2019/src/xodr/lane_section_parser.cpp:158-171 | handling two runs of children in turn is handling their concatenation |
| LaneSectionParser.Values | hackatum-2019/src/xodr/lane_section_parser.cpp:198-235 | the stored lanes are the parsed lanes' values in order |
| LaneSectionParser.Lefts | hackatum-2019/src/xodr/lane_section_parser.cpp:173-201 | each parsed lane of `<left>` becomes one left-lane child, in order |
| LaneSectionParser.Rights | hackatum-2019/src/xodr/lane_section_parser.cpp:203-237 | each parsed lane of `<right>` becomes one right-lane child, in order |
| LaneSectionParser.ParseItemsLast | hackatum-2019/src/xodr/lane_section_parser.cpp:158-171 | the last child is handled after all the others |
| LaneSectionParser.LeftIdsConsecutiveSnoc | hackatum-2019/src/xodr/lane_section_parser.cpp:180-194 | the left-lane id rule applied lane by lane is the rule for the whole list |
| LaneSectionParser.LeftLanesParsed | hackatum-2019/src/xodr/lane_section_parser.cpp:162-201 | from a fresh section, clean left lanes are stored in order and all counted, and no error arises exactly when their ids are positive and descend by one |
| LaneSectionParser.LeftLanesValues | hackatum-2019/src/xodr/lane_section_parser.cpp:162-199 | from a fresh section, clean left lanes are stored in order and all counted |
| LaneSectionParser.LeftLanesErrors | hackatum-2019/src/xodr/lane_section_parser.cpp:180-194 | from a fresh section, clean left lanes raise no error exactly when their ids are positive and descend by one |
| LaneSectionParser.RightIdsConsecutiveSnoc | hackatum-2019/src/xodr/lane_section_parser.cpp:210-231 | the right-lane id rule, after lanes ending in lane 1 or none, applied lane by lane is the rule for the whole list |
| LaneSectionParser.NoErrorsConcat | hackatum-2019/src/xodr/lane_section_parser.cpp:197-234 | appended error lists are empty exactly when each part is |
| LaneSectionParser.ValuesSnoc | hackatum-2019/src/xodr/lane_section_parser.cpp:235 | appending the next right lane extends the stored lanes by its value |
| LaneSectionParser.RightLanesParsed | hackatum-2019/src/xodr/lane_section_parser.cpp:203-237 | after a correctly closed left side, clean right lanes are appended but not counted, and no new error arises exactly when their ids run -1, -2, ... |
| LaneSectionParser.RightLanesValues | hackatum-2019/src/xodr/lane_section_parser.cpp:234-235 | clean right lanes are appended in order and `numLeftLanes_` is unchanged |
| LaneSectionParser.RightLanesErrors | hackatum-2019/src/xodr/lane_section_parser.cpp:210-231 | after a correctly closed left side, clean right lanes raise no error exactly when their ids run -1, -2, ... |
| LaneSectionParser.LeftSideClosed | hackatum-2019/src/xodr/lane_section_parser.cpp:141-194 | the left-lane checks together with the `<center>` check accept exactly left ids n, ..., 1 |
| LaneSectionParser.DescendingSpan | hackatum-2019/src/xodr/lane_section_parser.cpp:186-194 | ids passing the left-lane rule differ by their distance in the list |
| LaneSectionParser.CanonicalOrderSplits | hackatum-2019/src/xodr/lane_section_parser.cpp:135-155 | children in the order left, center, right are handled as the left lanes, then the center check, then the right lanes |
| LaneSectionParser.WellNumberedSplits | hackatum-2019/src/xodr/lane_section.h:538-542 | a section of left lanes then right lanes follows the OpenDRIVE numbering exactly when the left ids count down to 1 and the right ids run -1, -2, ... |
| LaneSectionParser.CanonicalSectionParsed | hackatum-2019/src/xodr/lane_section_parser.cpp:158-237 | a section written as left, center, right with clean lanes parses without error exactly when every lane carries the id its position implies, and stores the lanes left to right with the left count |
| MapKeys.Ordinal | hackatum-2019/src/xodr/xodr_map_keys.cpp:23 | contact points compare by their enumeration position, with "not specified" first |
| MapKeys.OrdinalInjective | hackatum-2019/src/xodr/xodr_map_keys.cpp:23 | distinct contact points have distinct positions, so their `<` is a strict order |
| MapKeys.RoadKeyEqualsIsEquality | hackatum-2019/src/xodr/xodr_map_keys.cpp:10-13 | `RoadContactPointKey ==` holds exactly for equal keys |
| MapKeys.RoadKeyLessIsStrictTotalOrder | hackatum-2019/src/xodr/xodr_map_keys.cpp:10-25 | `<` is irreflexive and transitive, and exactly one of `a < b`, `a == b`, `b < a` holds |
| MapKeys.SectionKeyEqualsIsEquality | hackatum-2019/src/xodr/xodr_map_keys.h:77-80 | `LaneSectionKey ==` is fieldwise equality |
| MapKeys.SectionContactPointKey | hackatum-2019/src/xodr/xodr_map_keys.h:131-136 | the key built from a section key and a contact point carries that contact point |
| MapKeys.SectionContactPointKeyRoundTrip | hackatum-2019/src/xodr/xodr_map_keys.h:131-149 | reading the section key back gives the one it was built from; a key is rebuilt from its two parts; `==` compares road, section and contact point |
| MapKeys.LaneKeyInSection | hackatum-2019/src/xodr/xodr_map_keys.h:203-208 | the lane key built from a section key stores the lane index |
| MapKeys.LaneKeyConstructorsAgree | hackatum-2019/src/xodr/xodr_map_keys.h:192-214 | the two `LaneKey` constructors build the same key, and `==` is fieldwise equality |
| MapKeys.LaneLinkKeyInConnection | hackatum-2019/src/xodr/xodr_map_keys.h:292-297 | the lane-link key built from a connection key stores the lane-link index |
| MapKeys.LaneLinkKeyKeepsConnection | hackatum-2019/src/xodr/xodr_map_keys.h:292-297 | the lane-link key copies the junction and connection indices of the connection key |
| ObjectRefs.DefaultRef | hackatum-2019/src/xodr/xodr_object_reference.cpp:8-14 | a fresh reference is unresolved |
| ObjectRefs.Parse | hackatum-2019/src/xodr/xodr_object_reference.cpp:8-24 | a parsed reference compares equal to exactly its text and is unresolved |
| ObjectRefs.Resolve | hackatum-2019/src/xodr/xodr_object_reference.cpp:26-51 | on an unresolved reference: succeeds exactly when the id is a key of the table, then keeps the id and holds the mapped non-negative index; otherwise fails with the "There's no ..." message |
| ObjectRefs.ResolveOrNull | hackatum-2019/src/xodr/xodr_object_reference.cpp:53-67 | the null id resolves to a reference without value; any other id resolves as the plain overload does |
| ParserTables.NameLessIrreflexive | hackatum-2019/src/xodr/xml/xml_child_element_parsers_impl.h:296 | no name sorts before itself |
| ParserTables.NameLessTrichotomy | hackatum-2019/src/xodr/xml/xml_child_element_parsers_impl.h:296 | of two names, exactly one sorts first or they are equal |
| ParserTables.NameLessTransitive | hackatum-2019/src/xodr/xml/xml_child_element_parsers_impl.h:296 | the name order is transitive, so `std::sort` with it is well defined |
| ParserTables.Compare | hackatum-2019/src/xodr/xml/xml_child_element_parsers_impl.h:42 | `compare` is negative, zero or positive exactly as the first name sorts before, equals or sorts after the second |
| ParserTables.EmptyTable | hackatum-2019/src/xodr/xml/xml_child_element_parsers_impl.h:10 | a new table has no entries and is not yet finalized |
| ParserTables.Add | hackatum-2019/src/xodr/xml/xml_child_element_parsers_impl.h:116-127 | adding an entry appends it, allowed while the table holds at most 31 entries, and leaves the mask alone |
| ParserTables.Insert | hackatum-2019/src/xodr/xml/xml_child_element_parsers_impl.h:296 | inserting into a sorted list keeps it sorted and adds exactly that entry |
| ParserTables.InsertFrontSorted | hackatum-2019/src/xodr/xml/xml_child_element_parsers_impl.h:296 | an entry not after the first of a sorted list may go in front |
| ParserTables.InsertBehindSorted | hackatum-2019/src/xodr/xml/xml_child_element_parsers_impl.h:296 | an entry after the first goes behind it and keeps the list sorted |
| ParserTables.SortByName | hackatum-2019/src/xodr/xml/xml_child_element_parsers_impl.h:296 | `std::sort` by name yields a sorted permutation of the entries |
| ParserTables.OptionalPositions | hackatum-2019/src/xodr/xml/xml_child_element_parsers_impl.h:298-305 | the mask holds exactly the positions of the optional entries |
| ParserTables.Finalize | hackatum-2019/src/xodr/xml/xml_child_element_parsers_impl.h:293-306 | `finalize` sorts the entries by name (as a permutation) and sets bit `i` of the mask exactly when entry `i` is optional |
| ParserTables.FinalizeKeepsEntries | hackatum-2019/src/xodr/xml/xml_child_element_parsers_impl.h:293-306 | finalizing keeps every entry with its flags and adds none |
| ParserTables.Search | hackatum-2019/src/xodr/xml/xml_child_element_parsers_impl.h:23-57 | a hit is an entry of that name within the range; in a sorted table a miss means no entry of the range has the name |
| ParserTables.Lookup | hackatum-2019/src/xodr/xml/xml_child_element_parsers_impl.h:23-57 | over the whole table: a hit has the name; in a sorted table a miss means no entry has it; with unique names the hit is exactly the position of the name |
| ParserTables.FindParser | hackatum-2019/src/xodr/xml/xml_child_element_parsers_impl.h:23-57 | the `min`/`max` loop returns the position `Lookup` gives, or -1 when there is none |
| ChildElementParsers.MultiplicityParser | hackatum-2019/src/xodr/xml/xml_child_element_parsers_impl.h:113-128 | the entry is required exactly for ONE and ONE_OR_MORE and may repeat exactly for ZERO_OR_MORE and ONE_OR_MORE |
| ChildElementParsers.MultiplicityOf | hackatum-2019/src/xodr/xml/xml_child_element_parsers_impl.h:120-121 | an entry's two flags determine its multiplicity: rebuilding from it gives the entry back |
| ChildElementParsers.FieldParser | hackatum-2019/src/xodr/xml/xml_child_element_parsers_impl.h:131-154 | `addFieldParser` and `addSetterParser` entries are required and single, as multiplicity ONE |
| ChildElementParsers.OptionalFieldParser | hackatum-2019/src/xodr/xml/xml_child_element_parsers_impl.h:156-211 | `addOptionalFieldParser` and `addOptionalSetterParser` entries are optional and single, as ZERO_OR_ONE |
| ChildElementParsers.UnexpectedChild | hackatum-2019/src/xodr/xml/xml_child_element_parsers_impl.h:30-38 | the unexpected-child error is not fatal and invalidates nothing |
| ChildElementParsers.EntryError | hackatum-2019/src/xodr/xml/xml_child_element_parsers_impl.h:124-126 | an entry's error carries its `parseFailArgs` and names the parent and the entry |
| ChildElementParsers.ChildStep | hackatum-2019/src/xodr/xml/xml_child_element_parsers_impl.h:15-82 | a child without entry adds UNEXPECTED_CHILD_ELEMENT and is skipped; a matched child marks its entry visited, adds DUPLICATE_CHILD_ELEMENT when already visited and not repeatable, and runs the entry in both cases |
| ChildElementParsers.ReadChildren | hackatum-2019/src/xodr/xml/xml_child_element_parsers_impl.h:15-83 | only positions of table entries are marked visited |
| ChildElementParsers.FoundCount | hackatum-2019/src/xodr/xml/xml_child_element_parsers_impl.h:15-83 | the number of children mapping to an entry is at most the number of children |
| ChildElementParsers.ReadChildrenVisited | hackatum-2019/src/xodr/xml/xml_child_element_parsers_impl.h:61-77 | an entry is visited exactly when some child maps to it |
| ChildElementParsers.ReadChildrenVisits | hackatum-2019/src/xodr/xml/xml_child_element_parsers_impl.h:15-83 | an entry runs on exactly the children that map to it, and is visited exactly when there is one |
| ChildElementParsers.ReadChildrenInvokes | hackatum-2019/src/xodr/xml/xml_child_element_parsers_impl.h:79 | an entry runs on exactly the children that map to it |
| ChildElementParsers.ReadChildrenReportsUnexpected | hackatum-2019/src/xodr/xml/xml_child_element_parsers_impl.h:30-38 | every child without entry is reported with its own name |
| ChildElementParsers.ReadChildrenDuplicates | hackatum-2019/src/xodr/xml/xml_child_element_parsers_impl.h:61-73 | with unique names, a non-repeatable entry reports one duplicate for each matching child after the first, and a repeatable one none |
| ChildElementParsers.RepeatsStep | hackatum-2019/src/xodr/xml/xml_child_element_parsers_impl.h:61-73 | one more match adds a duplicate exactly when there was an earlier match of a non-repeatable entry |
| ChildElementParsers.StepDuplicates | hackatum-2019/src/xodr/xml/xml_child_element_parsers_impl.h:61-73 | one child adds a duplicate for entry `i` exactly when it maps to `i` again and `i` may not repeat |
| ChildElementParsers.DuplicateErrorsDiffer | hackatum-2019/src/xodr/xml/xml_child_element_parsers_impl.h:69-71 | with unique names, the duplicate errors of distinct entries differ |
| ChildElementParsers.FinishEvents | hackatum-2019/src/xodr/xml/xml_child_element_parsers_impl.h:84-108 | after the children, each unvisited optional entry applies its default, each unvisited required entry reports MISSING_CHILD_ELEMENT, and nothing else happens |
| ChildElementParsers.FinishReportsOnlyMissing | hackatum-2019/src/xodr/xml/xml_child_element_parsers_impl.h:91-100 | only unvisited required entries report a missing child |
| ChildElementParsers.Parse | hackatum-2019/src/xodr/xml/xml_child_element_parsers_impl.h:6-109 | `parse` on a finalized table runs only table entries, and only on actual children |
| ChildElementParsers.ParseHonoursMultiplicity | hackatum-2019/src/xodr/xml/xml_child_element_parsers_impl.h:6-109 | with unique names, an entry runs once per child of its name; with no such child it reports a missing child exactly when required and applies its default exactly when optional |
| ChildElementParsers.FoundCountPositive | hackatum-2019/src/xodr/xml/xml_child_element_parsers_impl.h:15-83 | the count is positive exactly when some child maps to the entry |
| ChildElementParsers.ReadChildrenReportsNoMissing | hackatum-2019/src/xodr/xml/xml_child_element_parsers_impl.h:15-83 | the loop over the children neither applies defaults nor reports missing children |
| ChildElementParsers.UnexpectedChildrenReported | hackatum-2019/src/xodr/xml/xml_child_element_parsers_impl.h:30-38 | in a sorted table, a child whose name no entry has is reported as unexpected and runs no entry |
| ChildElementParsers.ParseOneOrMore | hackatum-2019/src/xodr/xml/xml_child_element_parsers_impl.h:308-335 | the function runs on exactly the children named `elemName`, in document order; others are skipped silently; exactly when none matches, one MISSING_CHILD_ELEMENT error carrying `parseFailArgs` is appended |
| ChildElementParsers.Matching | hackatum-2019/src/xodr/xml/xml_child_element_parsers_impl.h:315-328 | the positions collected are exactly the children of that name, ascending |
| AttributeParsers.RequiredParser | hackatum-2019/src/xodr/xml/xml_attribute_parsers_impl.h:122-157 | `addParser`, `addFieldParser` and `addSetterParser` make a required entry with the given name and invalidations |
| AttributeParsers.OptionalParser | hackatum-2019/src/xodr/xml/xml_attribute_parsers_impl.h:159-181 | `addOptionalFieldParser` and `addOptionalSetterParser` make an optional entry with the given name and invalidations |
| AttributeParsers.UnexpectedAttribute | hackatum-2019/src/xodr/xml/xml_attribute_parsers_impl.h:42-47 | corrected: the unexpected-attribute error names the attribute, and it is not fatal and invalidates nothing |
| AttributeParsers.UnexpectedAttributeAsWritten | hackatum-2019/src/xodr/xml/xml_attribute_parsers_impl.h:45-46 | as written: the unexpected-attribute error carries the attribute's value in the place of its name |
| AttributeParsers.InvalidValue | hackatum-2019/src/xodr/xml/xml_attribute_parsers_impl.h:84-88 | a decoder that throws gives INVALID_ATTRIBUTE_VALUE with the entry's name, the rejected value and the entry's invalidations |
| AttributeParsers.MissingValue | hackatum-2019/src/xodr/xml/xml_attribute_parsers_impl.h:106-110 | an absent required attribute gives MISSING_ATTRIBUTE naming the element and the entry, with the entry's invalidations |
| AttributeParsers.AttribStep | hackatum-2019/src/xodr/xml/xml_attribute_parsers_impl.h:29-92 | an attribute without an entry adds one unexpected-attribute error and visits nothing; with an entry it marks that entry visited and stores the value when it decodes, or reports it invalid otherwise |
| AttributeParsers.ReadAttributes | hackatum-2019/src/xodr/xml/xml_attribute_parsers_impl.h:29-93 | the loop yields one event per attribute and visits only table positions |
| AttributeParsers.ReadAttributesEvent | hackatum-2019/src/xodr/xml/xml_attribute_parsers_impl.h:29-93 | the event of attribute `j` is the step's result for that attribute alone, whatever the others are |
| AttributeParsers.ReadAttributesVisited | hackatum-2019/src/xodr/xml/xml_attribute_parsers_impl.h:72-79 | an entry is visited exactly when some attribute maps to it |
| AttributeParsers.FinishEvents | hackatum-2019/src/xodr/xml/xml_attribute_parsers_impl.h:102-118 | after the loop, each unvisited optional entry applies its default, each unvisited required entry reports a missing attribute, and nothing else happens |
| AttributeParsers.FinishReportsOnlyMissing | hackatum-2019/src/xodr/xml/xml_attribute_parsers_impl.h:104-111 | with unique names, only entries that are unvisited and required report a missing attribute |
| AttributeParsers.FinishEmptyWhenAllVisited | hackatum-2019/src/xodr/xml/xml_attribute_parsers_impl.h:95-96 | when every entry was visited the second loop would do nothing, so the `fullMask` test changes no outcome |
| AttributeParsers.ParseWith | hackatum-2019/src/xodr/xml/xml_attribute_parsers_impl.h:19-120 | `parse` gives at least one event per attribute |
| AttributeParsers.ParseWithFinishes | hackatum-2019/src/xodr/xml/xml_attribute_parsers_impl.h:95-119 | skipping the second loop when every entry was visited gives the same events as running it |
| AttributeParsers.AsWrittenVisitsAlike | hackatum-2019/src/xodr/xml/xml_attribute_parsers_impl.h:40-48 | the error chosen for an attribute without an entry does not change which entries the loop visits |
| AttributeParsers.ParseAsWrittenDiffers | hackatum-2019/src/xodr/xml/xml_attribute_parsers_impl.h:40-48 | the events as written and corrected have the same length and agree everywhere except on attributes without an entry, reported under their value as written and under their name when corrected |
| AttributeParsers.ParseAsWritten | hackatum-2019/src/xodr/xml/xml_attribute_parsers_impl.h:19-120 | `parse` as written gives the corrected events, except that an attribute without an entry is reported under its value |
| AttributeParsers.Parse | hackatum-2019/src/xodr/xml/xml_attribute_parsers_impl.h:19-120 | the first events are the attribute loop's, one per attribute; every later event is a default or a missing-attribute error |
| AttributeParsers.ParseSplits | hackatum-2019/src/xodr/xml/xml_attribute_parsers_impl.h:19-120 | the events of `parse` are the loop's followed by those for the unvisited entries |
| AttributeParsers.LookupByName | hackatum-2019/src/xodr/xml/xml_attribute_parsers_impl.h:35-67 | in a sorted table with unique names, an attribute maps to entry `i` exactly when it has that entry's name |
| AttributeParsers.ParseDecodesEntry | hackatum-2019/src/xodr/xml/xml_attribute_parsers_impl.h:67-90 | the attribute named like entry `i` is stored through `i` when it decodes and reported invalid with `i`'s invalidations when it does not; `i` stores no other attribute |
| AttributeParsers.ParseHonoursRequired | hackatum-2019/src/xodr/xml/xml_attribute_parsers_impl.h:96-118 | without an attribute of its name, entry `i` reports a missing attribute exactly when required and applies its default exactly when optional; with one it does neither |
| AttributeParsers.UnexpectedAttributeReported | hackatum-2019/src/xodr/xml/xml_attribute_parsers_impl.h:42-47 | corrected: an attribute no entry names is reported as unexpected, naming the attribute, and is not fatal |
| AttributeParsers.UnexpectedAttributeAsWrittenReported | hackatum-2019/src/xodr/xml/xml_attribute_parsers_impl.h:42-47 | as written: such an attribute is reported with its value in the place of its name |
| AttributeParsers.UnexpectedAttributeNamesValue | hackatum-2019/src/xodr/xml/xml_attribute_parsers_impl.h:45-46 | for `fluff='blabla'` the source's message names "blabla", and the corrected one names "fluff" |
| AttributeParsers.ParseXmlAttribVia | hackatum-2019/src/xodr/xml/xml_attribute_parsers_impl.h:7-16 | decoding through `T::parse` succeeds exactly when the parse reports no errors; otherwise it throws with the value |
| AttributeParsers.ParseBool | hackatum-2019/src/xodr/xml/xml_attribute_parsers.cpp:22-45 | "true" and "1" read as true, "false" and "0" as false, and any other text is rejected with that text |
| AttributeParsers.ParseBoolRoundTrip | hackatum-2019/src/xodr/xml/xml_attribute_parsers.cpp:22-45 | both spellings of a boolean read back as that boolean |
| AttributeParsers.ParseString | hackatum-2019/src/xodr/xml/xml_attribute_parsers.cpp:16-20 | every text is accepted unchanged |
| AttributeParsers.FindAttrib | hackatum-2019/src/xodr/xml/xml_reader.cpp:229-243 | finds the first attribute with the name, and finds none exactly when no attribute has it |
| AttributeParsers.ParseField | hackatum-2019/src/xodr/xml/xml_attribute_parsers_impl.h:233-239 | `parseField` fails with "Attribute '<name>. expected." exactly when the attribute is absent; otherwise it decodes the first attribute of that name |
| RoadLinks.RoadLinkTypeName | hackatum-2019/src/xodr/road_link.cpp:5-18 | predecessor and successor get distinct names, "predecessor" and "successor" |
| RoadLinks.LinkTypeForContactPoint | hackatum-2019/src/xodr/road_link.cpp:35-48 | a road's start is reached through its predecessor link and its end through its successor link |
| RoadLinks.ContactPointForLinkType | hackatum-2019/src/xodr/road_link.cpp:50-63 | the contact point of a link type is specified and maps back to that link type |
| RoadLinks.LinkTypeContactPointInverse | hackatum-2019/src/xodr/road_link.cpp:35-63 | the two conversions are inverse bijections between {start, end} and {predecessor, successor} |
| RoadLinks.OppositeContactPoint | hackatum-2019/src/xodr/road_link.cpp:65-78 | the opposite of a specified contact point is the other specified one |
| RoadLinks.OppositeIsInvolution | hackatum-2019/src/xodr/road_link.cpp:65-78 | taking the opposite twice gives the original contact point |
| RoadLinks.DefaultRoadLink | hackatum-2019/src/xodr/road_link.cpp:80 | a default road link links nothing |
| RoadLinks.MakeRoadLink | hackatum-2019/src/xodr/road_link.cpp:82-89 | `roadLink` links a road through the given contact point and reference |
| RoadLinks.MakeJunctionLink | hackatum-2019/src/xodr/road_link.cpp:91-97 | `junctionLink` links the given junction |
| RoadLinks.DefaultNeighborLink | hackatum-2019/src/xodr/road_link.h:207-212 | a default neighbour is not specified |
| RoadLinks.ParsedNeighborLink | hackatum-2019/src/xodr/road_link_parser.cpp:143-154 | a parsed neighbour is always specified and keeps its side, direction and element id |
| RoadLinks.DefaultRoadLinks | hackatum-2019/src/xodr/road_link.h:310-313 | a default `<link>` has neither predecessor nor successor nor neighbours |
| RoadLinks.ParseElementType | hackatum-2019/src/xodr/road_link_parser.cpp:10-25 | exactly "road" and "junction" decode, and never to NOT_SPECIFIED |
| RoadLinks.ParseContactPoint | hackatum-2019/src/xodr/road_link_parser.cpp:27-42 | exactly "start" and "end" decode, to the contact point of that name |
| RoadLinks.ContactPointNameRoundTrip | hackatum-2019/src/xodr/road_link.cpp:20-33 | decoding the name of a specified contact point gives it back |
| RoadLinks.ParseSide | hackatum-2019/src/xodr/road_link_parser.cpp:96-111 | exactly "left" and "right" decode, each to its own side |
| RoadLinks.ParseDirection | hackatum-2019/src/xodr/road_link_parser.cpp:113-128 | exactly "same" and "opposite" decode, each to its own direction |
| RoadLinks.FinishRoadLink | hackatum-2019/src/xodr/road_link_parser.cpp:45-72 | the link is rejected exactly when it is a road link without a contact point; otherwise it keeps its type and reference, with NOT_SPECIFIED when the contact point is absent |
| RoadLinks.AddNeighbor | hackatum-2019/src/xodr/road_link_parser.cpp:173-207 | a `<neighbor>` never touches predecessor or successor, never replaces a neighbour already specified, and keeps earlier errors in front of its own |
| RoadLinks.FirstNeighborKept | hackatum-2019/src/xodr/road_link_parser.cpp:173-207 | starting with no neighbour on a side, the kept neighbour is the first error-free one of that side, or none when there is none |
| RoadLinks.KeptAfterSpecified | hackatum-2019/src/xodr/road_link_parser.cpp:181-200 | once a side has a neighbour, later `<neighbor>` elements leave it unchanged |
| RoadLinks.ResolveRoadLink | hackatum-2019/src/xodr/road_link_parser.cpp:74-92 | an unspecified link resolves unchanged; a road or junction link resolves exactly when its id is in the road or junction map, keeping type, contact point and id |
| RoadLinks.ResolveNeighborLink | hackatum-2019/src/xodr/road_link_parser.cpp:156-162 | an unspecified neighbour resolves unchanged; a specified one resolves exactly when its id names a road, to that road's index |
| RoadLinks.ResolveRoadLinks | hackatum-2019/src/xodr/road_link_parser.cpp:223-229 | the `<link>` resolves exactly when all four links resolve, and a failing predecessor is the error reported |
| RoadObjects.ParseTypeAsWritten | hackatum-2019/src/xodr/road_object.cpp:13-47 | as written: exactly the keywords of the table are accepted, and any other text is rejected with "'<value>' isn't a valid road object type." |
| RoadObjects.ParseTypeAsWrittenRoundTrip | hackatum-2019/src/xodr/road_object.cpp:13-47 | the table as written decodes the name of every type except BUS back to that type |
| RoadObjects.BusNameNotDecoded | hackatum-2019/src/xodr/road_object.cpp:16-36 | `typeName(BUS)` is "bus", which the table as written rejects |
| RoadObjects.ParseType | hackatum-2019/src/xodr/road_object.cpp:13-47 | corrected: the same decoder over the table with "bus" added |
| RoadObjects.ParseTypeRoundTrip | hackatum-2019/src/xodr/road_object.cpp:214-262 | with the complete table, the name of every type decodes back to that type |
| RoadObjects.ParseTypeOnlyNames | hackatum-2019/src/xodr/road_object.cpp:13-47 | every keyword the complete table accepts is the name of the type it decodes to |
| RoadObjects.ParseOrientation | hackatum-2019/src/xodr/road_object.cpp:49-67 | exactly "+", "-" and "none" are accepted, each to its own orientation |
| RoadObjects.SizeProblems | hackatum-2019/src/xodr/road_object.cpp:139-212 | the number of size problems found, in each branch of the decision on which of length, width and radius are present |
| RoadObjects.SizeError | hackatum-2019/src/xodr/road_object.cpp:148 | a size error is a plain message error with no invalidation bits, so it counts as fatal |
| RoadObjects.ValidateGeometry | hackatum-2019/src/xodr/road_object.cpp:139-212 | one error per size problem, in order; the errors never invalidate geometry or connectivity |
| RoadObjects.ValidateGeometryAcceptsWellSpecified | hackatum-2019/src/xodr/road_object.cpp:139-212 | no error is reported exactly for a box (length, width and height), a cylinder (radius and height) or an outline alone |
| RoadObjects.ValidatedHasConsistentBox | hackatum-2019/src/xodr/road_object.cpp:264-268 | an object without size errors meets the assertion of `hasBoxGeometry`, and a box has neither a radius nor an outline |
| RoadObjects.FinishRoadObject | hackatum-2019/src/xodr/road_object.cpp:124-137 | the geometry findings are appended after the errors already reported, leave the value alone, add no invalidation, and add nothing exactly when the size specification is admitted |
| ReferenceLines.ParsePRange | hackatum-2019/src/xodr/reference_line_parser.cpp:10-25 | exactly "arcLength" and "normalized" are accepted, each to its own range; other text is rejected carrying that text |
| ReferenceLines.PRangeKeyword | hackatum-2019/src/xodr/reference_line_parser.cpp:10-25 | the keyword of each p-range decodes back to it |
| ReferenceLines.EndS | hackatum-2019/src/xodr/reference_line.cpp:183-194 | a geometry ends its length after its start |
| ReferenceLines.ParamPoly3EndParameter | hackatum-2019/src/xodr/reference_line.cpp:661-680 | the curve parameter at the end of a `<paramPoly3>` is its length for an arc-length range and 1 for a normalized one |
| ReferenceLines.AttribChecks | hackatum-2019/src/xodr/reference_line_parser.cpp:62-75 | only when the attributes left the geometry valid: a GEOMETRY error for a length not above 0 and one for a negative `s`, each exactly when its condition holds, and nothing else |
| ReferenceLines.ParseSpiral | hackatum-2019/src/xodr/reference_line_parser.cpp:148-165 | a spiral keeps its curvatures and earlier errors; exactly when the geometry is valid and the curvature rate is zero, one GEOMETRY error about equal curvatures is appended |
| ReferenceLines.UnknownGeometryError | hackatum-2019/src/xodr/reference_line_parser.cpp:110-117 | an element that is not a geometry kind gives a GEOMETRY error, which is fatal |
| ReferenceLines.GeometryStep | hackatum-2019/src/xodr/reference_line_parser.cpp:55-119 | a `<geometry>` appends its attribute errors and checks, then, for a known kind, one geometry with its `s` and length and that kind's errors, and otherwise no geometry and the unknown-kind error |
| ReferenceLines.ReadGeometries | hackatum-2019/src/xodr/reference_line_parser.cpp:53-120 | there are never more geometries than `<geometry>` elements |
| ReferenceLines.ReadGeometriesCount | hackatum-2019/src/xodr/reference_line_parser.cpp:80-117 | there is one geometry per element of a known kind |
| ReferenceLines.ReadGeometriesAllKnown | hackatum-2019/src/xodr/reference_line_parser.cpp:80-109 | when every element has a known kind, geometry `k` is built from element `k` |
| ReferenceLines.ReadGeometriesKnownStep | hackatum-2019/src/xodr/reference_line_parser.cpp:80-109 | an element of a known kind appends its geometry behind the earlier ones |
| ReferenceLines.Pick | hackatum-2019/src/xodr/reference_line_parser.cpp:53-54 | the `<geometry>` children are taken in document order |
| ReferenceLines.ParsePlanView | hackatum-2019/src/xodr/reference_line_parser.cpp:49-127 | read with every `<geometry>` child consumed to its end tag, the reference line has an end exactly when it has a geometry, and then it ends where the last geometry ends |
| ReferenceLines.PlanViewOf | hackatum-2019/src/xodr/reference_line_parser.cpp:53-124 | the line read from the `<geometry>` children ends where its last geometry ends |
| ReferenceLines.GeometriesReadAsWritten | hackatum-2019/src/xodr/reference_line_parser.cpp:110-118 | as written, the loop reads the `<geometry>` children up to and including the first of an unknown kind, and every earlier one has a known kind |
| ReferenceLines.ParsePlanViewAsWritten | hackatum-2019/src/xodr/reference_line_parser.cpp:49-127 | as written, the reference line still ends where its last geometry ends |
| ReferenceLines.PlanViewAsWrittenWithoutUnknown | hackatum-2019/src/xodr/reference_line_parser.cpp:78-118 | without a `<geometry>` of an unknown kind, the loop as written gives the same reference line and errors as the corrected one |
| ReferenceLines.UnknownKindEndsPlanView | hackatum-2019/src/xodr/reference_line_parser.cpp:110-118 | an unknown kind followed by a line: as written the reference line has no geometry, the corrected loop reads the line |
| ReferenceLines.LineOf | hackatum-2019/src/xodr/reference_line_parser.cpp:121-124 | `endVertex_` is set from the last geometry, and only when there is one |
| ReferenceLines.PlanViewWithoutGeometry | hackatum-2019/src/xodr/reference_line_parser.cpp:53-120 | a `<planView>` without `<geometry>` has no geometry and no end, and its one error is a missing child that invalidates everything |
| ReferenceLines.ContainingIndex | hackatum-2019/src/xodr/reference_line.cpp:34-54 | the reference answer picks a geometry whose start is at most `s` (or the first) and after which every start lies beyond `s` |
| ReferenceLines.GeometryContaining | hackatum-2019/src/xodr/reference_line.cpp:34-54 | the binary search returns a geometry whose start is at most `s` (or the first), with the next one starting after `s`; with strictly increasing starts, this is the reference answer |
| ReferenceLines.ContainingIndexUnique | hackatum-2019/src/xodr/reference_line.cpp:34-54 | with strictly increasing starts only one geometry has those two properties |
| ReferenceLines.ContainingGeometryInRange | hackatum-2019/src/xodr/reference_line.cpp:34-54 | on a gap-free line, the geometry picked for an `s` up to the end passes its own `inSRange` check |
| ReferenceLines.Pieces | hackatum-2019/src/xodr/reference_line.cpp:75-95 | `tessellate` hands each geometry only its own non-empty range |
| ReferenceLines.PiecesEmpty | hackatum-2019/src/xodr/reference_line.cpp:90-95 | once a geometry's clamped start reaches the end, neither it nor any later geometry contributes |
| ReferenceLines.CoversSingle | hackatum-2019/src/xodr/reference_line.cpp:92-94 | a last piece that reaches the end covers its range and includes the end point |
| ReferenceLines.CoversPrepend | hackatum-2019/src/xodr/reference_line.cpp:75-95 | a piece ending where the rest begins, without the end point, extends the cover |
| ReferenceLines.PiecesCover | hackatum-2019/src/xodr/reference_line.cpp:75-95 | from geometry `i` on, the pieces cover the rest of the requested range, gap-free and in order |
| ReferenceLines.TessellateCovers | hackatum-2019/src/xodr/reference_line.cpp:66-98 | within the asserted bounds, the geometries' calls cover `[startS, endS]` exactly once, in order, and only the last includes the end point |
| ReferenceLines.Ceil | hackatum-2019/src/xodr/reference_line.cpp:163 | `std::ceil`: the least integer not below its argument |
| ReferenceLines.SampleSCoords | hackatum-2019/src/xodr/reference_line.cpp:151-181 | one vertex per metre rounded up, plus the end point when asked for |
| ReferenceLines.StepBounds | hackatum-2019/src/xodr/reference_line.cpp:163-176 | the `k`-th of `num` equal steps lies in `[startS, endS)` for `k < num` and is `endS` for `k == num` |
| ReferenceLines.SampleSCoordsIncrease | hackatum-2019/src/xodr/reference_line.cpp:171-181 | the samples start at `startS` and increase strictly |
| ReferenceLines.SampleSCoordsBounds | hackatum-2019/src/xodr/reference_line.cpp:163-181 | the samples lie in `[startS, endS)`, except for the included end point, which is `endS` |
| Roads.RoadLinkOf | hackatum-2019/src/xodr/road.cpp:11-24 | the predecessor type selects the predecessor link and the successor type the successor link |
| Roads.LaneSectionIndexForContactPoint | hackatum-2019/src/xodr/road.cpp:26-39 | the start selects section 0 and the end the last section, within range whenever there is a section |
| Roads.LaneSectionForContactPoint | hackatum-2019/src/xodr/road.cpp:41-49 | the start gives the first section and the end the last |
| Roads.LaneSectionIndexForExternalLinkType | hackatum-2019/src/xodr/road.cpp:51-64 | the predecessor selects section 0 and the successor the last section, within range whenever there is a section |
| Roads.LaneSectionForExternalLinkType | hackatum-2019/src/xodr/road.cpp:66-79 | `front()` and `back()` are the sections the index function names |
| Roads.ExternalLinkSectionIsContactSection | hackatum-2019/src/xodr/road.cpp:26-64 | a link type's section is the section at the contact point that link type leaves from, and the other way round |
| Roads.Validate | hackatum-2019/src/xodr/road.cpp:81-87 | the road passes exactly when every lane section passes, and a failure is the failure of one of its sections |
| Roads.FirstProblem | hackatum-2019/src/xodr/road.cpp:83-86 | the checks in order report nothing exactly when none of them fails, and otherwise the failure of one of them |
| Roads.SectionChecks | hackatum-2019/src/xodr/road_parser.cpp:28-47 | a section adds no error exactly when it is the first and starts at 0 or starts strictly after the previous one; otherwise it adds one GEOMETRY error |
| Roads.Chain | hackatum-2019/src/xodr/road_parser.cpp:40-52 | the new section is appended, and the previous one is closed at its start; nothing else changes |
| Roads.AddLaneSectionAsWritten | hackatum-2019/src/xodr/road_parser.cpp:26-53 | as written: the section is chained in and only the order checks are reported, without the section's own errors |
| Roads.LaneSectionErrorsDropped | hackatum-2019/src/xodr/road_parser.cpp:27-52 | as written, a first section starting at 0 whose own parse invalidated geometry leaves the road without any error |
| Roads.AddLaneSection | hackatum-2019/src/xodr/road_parser.cpp:26-53 | corrected: the section's own errors are kept, in front of the order checks |
| Roads.AddLaneSections | hackatum-2019/src/xodr/road_parser.cpp:26-53 | every `<laneSection>` adds one section, the rest of the road is untouched, and earlier errors stay in front |
| Roads.LaneSectionsKept | hackatum-2019/src/xodr/road_parser.cpp:40-52 | the sections are kept in document order, each changed only in its end, which is the next section's start |
| Roads.LaneSectionsValidity | hackatum-2019/src/xodr/road_parser.cpp:26-53 | the road's geometry stays valid exactly when it was valid, no section reported a geometry error, and the sections start at 0 in strictly ascending order |
| Roads.LaneSectionsParsed | hackatum-2019/src/xodr/road_parser.cpp:26-53 | the two lemmas above together |
| Roads.MissingLaneSectionError | hackatum-2019/src/xodr/road_parser.cpp:26 | a `<lanes>` without `<laneSection>` reports a missing child element |
| Roads.ParseLanes | hackatum-2019/src/xodr/road_parser.cpp:21-57 | without sections the road is unchanged apart from the missing-child error; registered with the GEOMETRY bit, a road whose geometry stays valid has a section |
| Roads.FinishRoadAsWritten | hackatum-2019/src/xodr/road_parser.cpp:119-133 | as written: `back()` is reached on an empty section list exactly when the geometry is valid and there is no section |
| Roads.EmptyLanesReachesBack | hackatum-2019/src/xodr/road_parser.cpp:119-132 | because the `<laneSection>` parser carries no invalidation bits, an empty `<lanes>` leaves the geometry valid and reaches `back()` on no sections |
| Roads.FinishRoad | hackatum-2019/src/xodr/road_parser.cpp:119-133 | with invalid geometry nothing changes; otherwise the last section is closed at the reference line's end, and the geometry stays valid exactly when that section starts before the end |
| Roads.FinishedSectionsTile | hackatum-2019/src/xodr/road_parser.cpp:26-133 | a road whose geometry is still valid is tiled by its sections: from 0, each one non-empty and ending where the next begins, the last ending with the reference line |
| Roads.NotImplementedWarning | hackatum-2019/src/xodr/road_parser.cpp:66-76 | the not-implemented warnings invalidate neither geometry nor connectivity |
| Roads.AddObjectsChild | hackatum-2019/src/xodr/road_parser.cpp:64-76 | an `<object>` appends its road object and errors; other children add one warning that invalidates nothing |
| Roads.ParseObjects | hackatum-2019/src/xodr/road_parser.cpp:59-80 | `<objects>`, with every child read to its end tag, changes only the road objects |
| Roads.ObjectsParsed | hackatum-2019/src/xodr/road_parser.cpp:59-80 | the road objects are appended in document order, and the warnings leave geometry and connectivity as valid as they were |
| Roads.LeadingObjects | hackatum-2019/src/xodr/road_parser.cpp:64-76 | the count of leading `<object>` children: all children before it are objects and the child at it is not |
| Roads.ParseObjectsAsWritten | hackatum-2019/src/xodr/road_parser.cpp:66-76 | as written, the loop over `<objects>` stops after the first `objectReference`, `tunnel` or `bridge`, whose end tag it takes for the end of `<objects>`, and changes only the road objects |
| Roads.ParseObjectsCons | hackatum-2019/src/xodr/xml/xml_child_element_parsers_impl.h:15-17 | handling a child and then the rest equals handling the list with that child in front |
| Roads.ObjectsAsWrittenStopEarly | hackatum-2019/src/xodr/road_parser.cpp:66-76 | as written, `<objects>` handles exactly its leading objects and the child after them, as the corrected loop handles that prefix |
| Roads.TunnelEndsObjects | hackatum-2019/src/xodr/road_parser.cpp:70-72 | `<tunnel/>` followed by `<object>`: as written the road gets no object, the corrected loop appends it |
| Roads.ResolveReferences | hackatum-2019/src/xodr/road_parser.cpp:136-140 | the road resolves exactly when its junction reference ("-1" meaning none) and its links do; only those change; an unknown junction gives "There's no junction with identifier '<id>'." |
| Roads.AllLanesPosition | hackatum-2019/src/xodr/road_parser.cpp:142-150 | lane `j` of section `i` sits after the lanes of the earlier sections |
| Roads.GlobalLaneIndexRange | hackatum-2019/src/xodr/road_parser.cpp:142-150 | with consecutive indices, `[globalLaneIndicesBegin, globalLaneIndicesEnd)` has one index per lane and contains the index of every lane of every section |
| Junctions.FindConnection | hackatum-2019/src/xodr/junction.cpp:23-38 | the connection found is the first with that incoming road, connecting road and contact point; none is found exactly when no connection matches |
| Junctions.FirstMatch | hackatum-2019/src/xodr/junction.cpp:28-37 | from a start position, the first matching connection, or none exactly when none matches |
| Junctions.HasConnection | hackatum-2019/src/xodr/junction.cpp:7-21 | the scan finds a connection exactly when some connection matches, and then `findConnection` finds one too |
| Junctions.HasOutgoingConnection | hackatum-2019/src/xodr/junction.cpp:40-55 | true exactly when some connection leaves the connecting road at the contact point opposite to the given one |
| Junctions.OutgoingIsOppositeIncoming | hackatum-2019/src/xodr/junction.cpp:40-55 | a connection that enters at the opposite contact point is one that `hasOutgoingConnection` reports |
| Junctions.ResolveConnection | hackatum-2019/src/xodr/junction_parser.cpp:88-92 | a connection resolves exactly when both its roads are known, to their indices, and nothing else changes |
| Junctions.ResolveJunction | hackatum-2019/src/xodr/junction_parser.cpp:43-49 | a junction resolves exactly when each connection does, each connection in place, keeping name and id |
| Junctions.FindLaneLinkTarget | hackatum-2019/src/xodr/junction.cpp:70-81 | the target is that of the first link leaving the lane, or null when no link leaves it |
| Junctions.FirstFrom | hackatum-2019/src/xodr/junction.cpp:72-78 | the position of the first link leaving the lane, or none exactly when no link leaves it |
| Junctions.SetLaneLinkTarget | hackatum-2019/src/xodr/junction.cpp:83-106 | the first link leaving the lane is retargeted, or erased for a null target; with none, a link is appended for a non-null target, and otherwise nothing changes |
| Junctions.FindAtFirst | hackatum-2019/src/xodr/junction.cpp:70-81 | the first link leaving the lane decides its target |
| Junctions.FindSameFroms | hackatum-2019/src/xodr/junction.cpp:70-81 | changing links that leave other lanes does not change a lane's target |
| Junctions.FindSkip | hackatum-2019/src/xodr/junction.cpp:96 | erasing a link that leaves another lane keeps a lane's target |
| Junctions.FindAppendOther | hackatum-2019/src/xodr/junction.cpp:104 | appending a link that leaves another lane keeps a lane's target |
| Junctions.FindOtherUnchanged | hackatum-2019/src/xodr/junction.cpp:83-106 | setting the target of one lane leaves the target of every other lane unchanged |
| Junctions.SetThenFind | hackatum-2019/src/xodr/junction.cpp:70-106 | after setting a non-null target, that target is found for the lane |
| Junctions.EraseUniqueThenNull | hackatum-2019/src/xodr/junction.cpp:83-106 | erasing the only link leaving a lane leaves it without a target |
| XodrMaps.IndexIds | hackatum-2019/src/xodr/xodr_map.cpp:69-93 | inserting the ids in order fails exactly when an id repeats; it stops at the first repeat, having mapped every earlier id to its position |
| XodrMaps.DuplicateJunctionMessageAsWritten | hackatum-2019/src/xodr/xodr_map.cpp:82-93 | as written: the message for a duplicate junction reads the road at the junction's position, which exists only when there are that many roads |
| XodrMaps.DuplicateJunctionNamesRoad | hackatum-2019/src/xodr/xodr_map.cpp:84-91 | two junctions "J" in a map whose second road is "R" are reported as "Multiple junctions with id 'R' found."; with one road the message reads past the end |
| XodrMaps.FailingRoads | hackatum-2019/src/xodr/xodr_map.cpp:95-107 | at most one error per road |
| XodrMaps.FailingJunctions | hackatum-2019/src/xodr/xodr_map.cpp:109-121 | at most one error per junction |
| XodrMaps.NoFailingRoads | hackatum-2019/src/xodr/xodr_map.cpp:95-107 | no road error is recorded exactly when every road resolves |
| XodrMaps.NoFailingJunctions | hackatum-2019/src/xodr/xodr_map.cpp:109-121 | no junction error is recorded exactly when every junction resolves |
| XodrMaps.ResolvedRoad | hackatum-2019/src/xodr/xodr_map.cpp:97-106 | resolution never changes a road's id, lane sections or objects |
| XodrMaps.RoadErrors | hackatum-2019/src/xodr/xodr_map.cpp:101-106 | a road whose resolution throws adds exactly one CONNECTIVITY error, and one that resolves adds none |
| XodrMaps.ResolveRoads | hackatum-2019/src/xodr/xodr_map.cpp:95-107 | every road is resolved in place, the loop goes on after a failure, and there is one CONNECTIVITY error per failing road |
| XodrMaps.ResolvedJunction | hackatum-2019/src/xodr/xodr_map.cpp:109-121 | resolution keeps a junction's id and its number of connections |
| XodrMaps.JunctionErrors | hackatum-2019/src/xodr/xodr_map.cpp:115-120 | a junction whose resolution throws adds exactly one CONNECTIVITY error, and one that resolves adds none |
| XodrMaps.ResolveJunctions | hackatum-2019/src/xodr/xodr_map.cpp:109-121 | every junction is resolved in place, and there is one CONNECTIVITY error per failing junction |
| XodrMaps.ResolveReferences | hackatum-2019/src/xodr/xodr_map.cpp:64-122 | corrected: a repeated road id gives one ALL error naming it and changes nothing, as does a repeated junction id; otherwise the tables map each id to its position, and roads then junctions are resolved with their errors in that order |
| XodrMaps.ResolutionKeepsGeometry | hackatum-2019/src/xodr/xodr_map.cpp:95-121 | with distinct ids, resolution errors never invalidate geometry |
| XodrMaps.ConnectivityErrorsKeepGeometry | hackatum-2019/src/xodr/xodr_map.cpp:105-119 | CONNECTIVITY errors leave geometry valid |
| XodrMaps.ResolvedTablesInRange | hackatum-2019/src/xodr/xodr_map.cpp:69-93 | with distinct ids, the tables point into the road and junction vectors |
| XodrMaps.RoadIndexById | hackatum-2019/src/xodr/xodr_map.cpp:168-177 | -1 exactly for an unknown id, and otherwise the id's table entry |
| XodrMaps.JunctionIndexById | hackatum-2019/src/xodr/xodr_map.cpp:190-199 | -1 exactly for an unknown id, and otherwise the id's table entry |
| XodrMaps.RoadById | hackatum-2019/src/xodr/xodr_map.cpp:135-144 | no road exactly for an unknown id, and otherwise the road at the id's index |
| XodrMaps.JunctionById | hackatum-2019/src/xodr/xodr_map.cpp:179-188 | no junction exactly for an unknown id, and otherwise the junction at the id's index |
| XodrMaps.LookupAfterResolve | hackatum-2019/src/xodr/xodr_map.cpp:168-199 | after resolution with distinct ids, each road and junction is found under its id at its own position, and an id no road has is not found |
| XodrMaps.HasRoadObjects | hackatum-2019/src/xodr/xodr_map.cpp:201-212 | true exactly when some road has an object |
| XodrMaps.LaneSectionByKey | hackatum-2019/src/xodr/xodr_map_keys.cpp:36-40 | the key finds the lane section at its section position in the road at its road position, with no search by id |
| XodrMaps.FinishMap | hackatum-2019/src/xodr/xodr_map.cpp:50-62 | the resolution errors follow the parse errors, the roads are the resolved ones, and the lane count is the reader's next global lane index |
| JunctionValidation.JunctionContainsRoad | hackatum-2019/src/xodr/validation/junction_validation.cpp:50-61 | true exactly when some connection of the junction has the road as its connecting road |
| JunctionValidation.LinkedIndicesInRange | hackatum-2019/src/xodr/validation/junction_validation.cpp:21-38 | in a well-formed map, the junction and road indices the checks follow lie within the map |
| JunctionValidation.FirstRoadOutside | hackatum-2019/src/xodr/validation/junction_validation.cpp:16-31 | the first road, from a position on, that names a junction without being one of its connecting roads; none exactly when every road is in its junction |
| JunctionValidation.FirstForeignIn | hackatum-2019/src/xodr/validation/junction_validation.cpp:36-46 | the first connection of a junction, from a position on, whose connecting road names another junction, every earlier one naming the junction; none exactly when there is none |
| JunctionValidation.FirstForeign | hackatum-2019/src/xodr/validation/junction_validation.cpp:33-47 | the first junction, with its first such connection, that uses a road of another junction, every earlier junction and connection passing; none exactly when no junction does |
| JunctionValidation.ValidateJunctionMembership | hackatum-2019/src/xodr/validation/junction_validation.cpp:11-48 | passes exactly when every road in a junction is a connecting road of it and every connecting road names its junction; otherwise it reports the first failing road, or, when all roads pass, the junction and road of the first connection, in junction and then connection order, whose connecting road names another junction |
| JunctionValidation.MembershipIsConnection | hackatum-2019/src/xodr/validation/junction_validation.cpp:11-48 | after the check passes, a road belongs to a junction exactly when it is one of that junction's connecting roads |
| LinkErrors.Fail | hackatum-2019/src/xodr/validation/lane_link_validation.cpp:92-157 | an error path appends exactly one error and returns false |
| LinkErrors.Also | hackatum-2019/src/xodr/validation/road_link_validation.cpp:40-42 | `success &= next`: both validators run, their errors are appended in order, and the result is true exactly when both are |
| LinkErrors.Fold | hackatum-2019/src/xodr/validation/lane_link_validation.cpp:479-492 | a loop of `success &=` is true exactly when every step is, has no errors exactly when no step has any, reports failure exactly when it appends an error if every step does, and holds only lane errors if every step does |
| LinkErrors.All | hackatum-2019/src/xodr/validation/road_link_validation.cpp:35-45 | outcomes computed beforehand combine to true exactly when each is true, and report failure exactly when they append an error if each of them does |
| LinkErrors.AllKeepsErrors | hackatum-2019/src/xodr/validation/road_link_validation.cpp:35-45 | every step's errors reach the combined list |
| Units.DistanceKeyword | hackatum-2019/src/xodr/units.cpp:5-30 | each specified distance unit has a keyword that the decoder reads back to it |
| Units.ParseDistanceUnit | hackatum-2019/src/xodr/units.cpp:5-30 | exactly "m", "km", "ft" and "mile" decode, each to its own unit and never to "not specified"; anything else fails with the value quoted in the message |
| Units.SpeedKeyword | hackatum-2019/src/xodr/units.cpp:32-53 | each specified speed unit has a keyword (OpenDRIVE's "mph" for miles per hour) that the corrected decoder reads back to it |
| Units.ParseSpeedUnitAsWritten | hackatum-2019/src/xodr/units.cpp:32-53 | as written exactly "m/s", "mps" and "km/h" decode, "mps" to miles per hour; anything else fails with the value quoted |
| Units.MilesPerHourRejected | hackatum-2019/src/xodr/units.cpp:39-42 | as written the keyword "mph" is rejected, so miles per hour never reads back from its own keyword |
| Units.ParseSpeedUnit | hackatum-2019/src/xodr/units.cpp:32-53 | corrected: exactly "m/s", "mph" and "km/h" decode, each to its own unit; anything else fails with the value quoted |
| Units.MassKeyword | hackatum-2019/src/xodr/units.cpp:55-72 | each specified mass unit has a keyword that the decoder reads back to it |
| Units.ParseMassUnit | hackatum-2019/src/xodr/units.cpp:55-72 | exactly "kg" and "t" decode, each to its own unit; anything else fails with the value quoted |
| LaneLinkValidation.LinkInRange | hackatum-2019/src/xodr/validation/lane_link_validation.cpp:32-78 | the link passes exactly when it avoids the centre lane, lies on the side the road directions demand, and lies in `[min, max]` (both ends included); each failure appends its own single error, checked in that order |
| LaneLinkValidation.SectionPair.RangeCheck | hackatum-2019/src/xodr/validation/lane_link_validation.cpp:32-78 | a link that passes the range test targets an existing non-centre lane of the target section |
| LaneLinkValidation.LaneLinkStep | hackatum-2019/src/xodr/validation/lane_link_validation.cpp:515-555 | lane `i` passes exactly when it has no link or its link is acceptable and linked back; a lane without a link adds nothing, and at most one lane error is added |
| LaneLinkValidation.ValidateLaneLinks | hackatum-2019/src/xodr/validation/lane_link_validation.cpp:495-558 | the pair passes exactly when every lane of the source section passes; without links it passes silently; it reports failure exactly when it appends an error |
| LaneLinkValidation.SectionKeyFor | hackatum-2019/src/xodr/validation/lane_link_validation.cpp:80-86 | a road's start maps to its first section and its end to its last, at the same contact point |
| LaneLinkValidation.PairFor | hackatum-2019/src/xodr/validation/lane_link_validation.cpp:88-102 | the sections at two road ends are the ones the section keys name |
| LaneLinkValidation.ValidateRoadRoadLaneLinks | hackatum-2019/src/xodr/validation/lane_link_validation.cpp:88-158 | two directly linked roads pass exactly when their end sections pass `validateLaneLinks`, as the two loops are the same |
| LaneLinkValidation.InternalPairs | hackatum-2019/src/xodr/validation/lane_link_validation.cpp:476-490 | for each boundary between consecutive sections, first the end of the earlier against the start of the later, then the reverse: two pairs per boundary |
| LaneLinkValidation.InternalStep | hackatum-2019/src/xodr/validation/lane_link_validation.cpp:488-489 | each pair is checked by `validateLaneLinks` |
| LaneLinkValidation.ValidateRoadInternalLaneLinks | hackatum-2019/src/xodr/validation/lane_link_validation.cpp:476-493 | a road passes exactly when every boundary passes in both directions, and a road with one section passes silently |
| LaneLinkValidation.SectionsInternalLaneLinks | hackatum-2019/src/xodr/validation/lane_link_validation.cpp:476-493 | the same over a list of sections |
| LaneLinkValidation.FoldPairs | hackatum-2019/src/xodr/validation/lane_link_validation.cpp:484-490 | the pairs pass together exactly when each passes; no pair means a silent pass |
| LaneLinkValidation.BackLinkInConnection | hackatum-2019/src/xodr/validation/lane_link_validation.cpp:194-218 | the back-link passes exactly when the connection carries the target back onto the source lane; a missing back-link reports LaneBackLinkNotSpecified |
| LaneLinkValidation.ConnectingIncomingStepAsWritten | hackatum-2019/src/xodr/validation/lane_link_validation.cpp:184-221 | as written: a lane fails only when its link passes the range test and is not carried back; a failing range test leaves it passing |
| LaneLinkValidation.ConnectingIncomingAsWritten | hackatum-2019/src/xodr/validation/lane_link_validation.cpp:160-225 | as written: true exactly when each lane's step as written is |
| LaneLinkValidation.CenterLinkKeepsSuccess | hackatum-2019/src/xodr/validation/lane_link_validation.cpp:191-221 | a connecting lane linked onto the incoming road's centre lane makes the code as written append an error and still return true; the corrected validator returns false |
| LaneLinkValidation.CenterLinkedPair | hackatum-2019/src/xodr/validation/lane_link_validation.cpp:160-225 | the counterexample's sections form a valid pair linked through a successor |
| LaneLinkValidation.ConnectingIncomingStep | hackatum-2019/src/xodr/validation/lane_link_validation.cpp:184-221 | corrected: a lane passes exactly when its link (if any) passes the range test and the connection carries it back |
| LaneLinkValidation.ConnectingIncoming | hackatum-2019/src/xodr/validation/lane_link_validation.cpp:160-225 | corrected: the connecting road passes exactly when every lane does, and reports failure exactly when it appends an error |
| LaneLinkValidation.IncomingAgreesWhenInRange | hackatum-2019/src/xodr/validation/lane_link_validation.cpp:160-225 | the version as written and the corrected one agree whenever every link passes its range test |
| LaneLinkValidation.ConnectingOutgoingStep | hackatum-2019/src/xodr/validation/lane_link_validation.cpp:254-261 | a lane passes exactly when its link (if any) passes the range test |
| LaneLinkValidation.ConnectingOutgoing | hackatum-2019/src/xodr/validation/lane_link_validation.cpp:228-265 | the road passes exactly when each lane's link passes the range test; back-links are not checked |
| LaneLinkValidation.SymmetricPassesOutgoing | hackatum-2019/src/xodr/validation/lane_link_validation.cpp:228-265 | a pair that passes `validateLaneLinks` passes the outgoing check |
| LaneLinkValidation.CenterErrors | hackatum-2019/src/xodr/validation/lane_link_validation.cpp:305-322 | exactly one end on the centre lane gives one centre-lane error, reported from the other end |
| LaneLinkValidation.ToRangeErrors | hackatum-2019/src/xodr/validation/lane_link_validation.cpp:324-333 | an error exactly when the connecting road's end is out of range |
| LaneLinkValidation.FromRangeErrors | hackatum-2019/src/xodr/validation/lane_link_validation.cpp:335-344 | an error exactly when the incoming road's end is out of range, reported from the other side |
| LaneLinkValidation.IncomingConnectingStep | hackatum-2019/src/xodr/validation/lane_link_validation.cpp:297-400 | a lane link passes exactly when it passes the centre and range tests and, unless it ends on the centre lane, runs the right way and is linked back; a misplaced link reports all its centre and range errors and nothing more |
| LaneLinkValidation.CenterToCenterSkipped | hackatum-2019/src/xodr/validation/lane_link_validation.cpp:352-355 | a link between the two centre lanes passes silently |
| LaneLinkValidation.MisplacedLinkSkipsLaterChecks | hackatum-2019/src/xodr/validation/lane_link_validation.cpp:346-350 | a centre or range failure stops that link's checks, so only centre and range errors are reported |
| LaneLinkValidation.IncomingConnecting | hackatum-2019/src/xodr/validation/lane_link_validation.cpp:267-403 | the connection passes exactly when each of its lane links passes |
| LaneLinkValidation.ConnectingConnectingStep | hackatum-2019/src/xodr/validation/lane_link_validation.cpp:424-466 | a lane link passes exactly when it passes the centre and both range tests, reporting each failure in that order |
| LaneLinkValidation.ConnectingConnecting | hackatum-2019/src/xodr/validation/lane_link_validation.cpp:406-473 | the connection passes exactly when each of its lane links passes the centre and range tests |
| RoadLinkValidation.LinkFor | hackatum-2019/src/xodr/validation/road_link_validation.cpp:265-269 | a road's start carries its predecessor link and its end its successor link |
| RoadLinkValidation.LinkForInRange | hackatum-2019/src/xodr/validation/road_link_validation.cpp:60-82 | in a well-formed map the link at a road end points at an existing road or junction |
| RoadLinkValidation.JunctionResolved | hackatum-2019/src/xodr/validation/road_link_validation.cpp:83-95 | in a well-formed map every connection of a junction names existing roads and a contact point |
| RoadLinkValidation.TargetKey | hackatum-2019/src/xodr/validation/road_link_validation.cpp:60 | a road link points at the road end its reference and contact point name |
| RoadLinkValidation.ValidateRoadRoadLink | hackatum-2019/src/xodr/validation/road_link_validation.cpp:107-179 | a missing back-link and a back-link to another road end are one error each; a back-link to the same end passes exactly when the lane links do; a back-link to a junction is handled by the junction branch; success needs a back-link |
| RoadLinkValidation.ViaBackJunction | hackatum-2019/src/xodr/validation/road_link_validation.cpp:142-173 | when the back-link names a junction: a connection from `to` into `from` checks the connecting road's lanes against it, an outgoing connection checks the lane ranges, and otherwise the back-link is missing in the junction |
| RoadLinkValidation.ConnectionAt | hackatum-2019/src/xodr/validation/road_link_validation.cpp:186-187 | a connection key names a connection of its junction |
| RoadLinkValidation.ValidateIncomingConnectingLink | hackatum-2019/src/xodr/validation/road_link_validation.cpp:181-263 | like the road-road case, but with the junction's connection: a back-link to the same end passes exactly when every lane link of the connection passes |
| RoadLinkValidation.ConnectingViaBackJunction | hackatum-2019/src/xodr/validation/road_link_validation.cpp:219-257 | when the back-link names a junction: a reverse incoming connection is an inconsistent-direction error, an outgoing one checks the lane links' placement, and otherwise the back-link is missing in the junction |
| RoadLinkValidation.ConnectionStep | hackatum-2019/src/xodr/validation/road_link_validation.cpp:85-95 | a connection whose incoming road is not the road is skipped |
| RoadLinkValidation.ValidateJunctionLink | hackatum-2019/src/xodr/validation/road_link_validation.cpp:77-99 | a link to a junction passes exactly when every connection entered from the road passes; with none it passes silently |
| RoadLinkValidation.ConnectionOutcomes | hackatum-2019/src/xodr/validation/road_link_validation.cpp:83-96 | one outcome per connection, in order |
| RoadLinkValidation.ValidateLinksIteration | hackatum-2019/src/xodr/validation/road_link_validation.cpp:48-105 | no link passes silently; a road link is a road-road check, or one error when the target road lies in a junction; a junction link checks the junction's connections |
| RoadLinkValidation.RoadStep | hackatum-2019/src/xodr/validation/road_link_validation.cpp:40-42 | the three checks of a road report failure exactly when they append an error |
| RoadLinkValidation.RoadStepIsConjunction | hackatum-2019/src/xodr/validation/road_link_validation.cpp:40-42 | all three checks of a road run, their errors appended in order, and the road passes exactly when each check does |
| RoadLinkValidation.ValidateLinks | hackatum-2019/src/xodr/validation/road_link_validation.cpp:33-46 | the map passes exactly when every road passes all three checks, and fails exactly when an error is appended |
| RoadLinkValidation.RoadOutcomes | hackatum-2019/src/xodr/validation/road_link_validation.cpp:38-43 | one outcome per road, in road order |
| RoadLinkValidation.ValidateLinksKeepsRoadErrors | hackatum-2019/src/xodr/validation/road_link_validation.cpp:33-46 | a failing road does not stop the loop: every road's errors reach the result |
| RoadLinkEnumeration.FromKey | hackatum-2019/src/xodr/xodr_utils_impl.h:70 | the from-key names road `r` at the end its link type leaves from, and converting that end back gives the link type |
| RoadLinkEnumeration.JunctionEvents | hackatum-2019/src/xodr/xodr_utils_impl.h:83-94 | exactly the connections whose incoming road is this road are reported, each from this road's end to the contact point the connection names on its connecting road, and nothing else |
| RoadLinkEnumeration.JunctionEventsAsWritten | hackatum-2019/src/xodr/xodr_utils_impl.h:86-94 | the branch as written takes the to-key's contact point from the road link, which only a road link carries |
| RoadLinkEnumeration.AsWrittenFailsOnAnyMatch | hackatum-2019/src/xodr/xodr_utils_impl.h:86-94 | on a link to a junction the branch as written fails as soon as one connection has the road as incoming road, and otherwise reports nothing, as the corrected branch does |
| RoadLinkEnumeration.ConnectingRoadIntoJunction | hackatum-2019/src/xodr/xodr_utils_impl.h:77-97 | a connecting road whose successor is a second junction makes the branch as written fail while the corrected branch reports the connection |
| RoadLinkEnumeration.LinkEvents | hackatum-2019/src/xodr/xodr_utils_impl.h:54-101 | an unspecified link reports nothing; a road link is reported once when the road is in a junction or has the lower index; a junction link reports only junction connections and only from a road inside a junction |
| RoadLinkEnumeration.RoadEvents | hackatum-2019/src/xodr/xodr_utils_impl.h:52-102 | every invocation for a road leaves from that road |
| RoadLinkEnumeration.EventTable | hackatum-2019/src/xodr/xodr_utils_impl.h:49-103 | one entry per road, each the invocations of that road |
| RoadLinkEnumeration.Enumerate | hackatum-2019/src/xodr/xodr_utils_impl.h:50-103 | the invocations for the first `n` roads leave only from those roads |
| RoadLinkEnumeration.ForEachRoadLink | hackatum-2019/src/xodr/xodr_utils_impl.h:13-104 | every invocation leaves from a road of the map |
| RoadLinkEnumeration.KeyPairs | hackatum-2019/src/xodr/xodr_utils_impl.h:5-11 | the single-callback overload sees the same key pairs in the same order as the two-callback one |
| RoadLinkEnumeration.Count | hackatum-2019/src/xodr/xodr_utils.h:8-20 | the count of invocations of either callback for an unordered pair is zero exactly when no invocation names that pair |
| RoadLinkEnumeration.CountOtherLink | hackatum-2019/src/xodr/xodr_utils_impl.h:62-75 | a link leaving from neither end of the pair does not report it |
| RoadLinkEnumeration.CountFromA | hackatum-2019/src/xodr/xodr_utils_impl.h:38-47 | of two mutually linked roads outside junctions, the first reports the pair once exactly when it has the lower index |
| RoadLinkEnumeration.CountFromB | hackatum-2019/src/xodr/xodr_utils_impl.h:38-47 | the link back from the second road reports the pair once exactly when the second road has the lower index |
| RoadLinkEnumeration.CountRoad | hackatum-2019/src/xodr/xodr_utils_impl.h:38-75 | a road reports the pair once if it is the lower-indexed of the two and otherwise not at all |
| RoadLinkEnumeration.CountConcat | hackatum-2019/src/xodr/xodr_utils_impl.h:50-103 | if each road alone reports the pair once exactly when it is the lower-indexed end, all roads together report it as often as that road lies in the range |
| RoadLinkEnumeration.MutualLinkReportedOnce | hackatum-2019/src/xodr/xodr_utils_impl.h:16-47 | two roads outside junctions that link to each other are reported exactly once |
| RoadLinkEnumeration.JunctionRoadReportsItsLinks | hackatum-2019/src/xodr/xodr_utils_impl.h:25-36 | a road inside a junction reports every road it links to, whatever the two indices |
| RoadLinkEnumeration.NoLinkBackCount | hackatum-2019/src/xodr/xodr_utils_impl.h:31-36 | a link whose road names no link back to road `r`, neither directly nor through a junction connection, reports no pair with an end of `r` |
| RoadLinkEnumeration.CountJunctionEvents | hackatum-2019/src/xodr/xodr_utils_impl.h:86-94 | a connection listed once for the incoming road is reported once by the junction branch |
| RoadLinkEnumeration.CountSingleLink | hackatum-2019/src/xodr/xodr_utils_impl.h:25-36 | when one link of road `r` reports a pair once and the far end does not link back, `r` reports it once and every other road not at all |
| RoadLinkEnumeration.SingleLinkReportedOnce | hackatum-2019/src/xodr/xodr_utils_impl.h:22-36 | such a pair is reported exactly once by the whole enumeration |
| RoadLinkEnumeration.JunctionRoadLinkReportedOnce | hackatum-2019/src/xodr/xodr_utils_impl.h:25-30 | a road inside a junction that links straight to another road whose link at that end does not lead back reports that pair exactly once, whatever the indices |
| RoadLinkEnumeration.JunctionConnectionReportedOnce | hackatum-2019/src/xodr/xodr_utils_impl.h:31-36 | a road inside a junction whose link names a second junction reports each connection that junction lists once for it exactly once, when the connecting road does not link back |
| RoadLinkEnumeration.EnumerateContainsRoad | hackatum-2019/src/xodr/xodr_utils_impl.h:50-103 | every road's invocations are among those of the whole enumeration |
| RoadLinkEnumeration.EnumerateSnoc | hackatum-2019/src/xodr/xodr_utils_impl.h:50-103 | roads are visited in index order, each road's invocations following those of all lower-indexed roads |
| MapValidation.RoadErrors | hackatum-2019/src/xodr/xodr_map.cpp:216-219 | one outcome per road, in road order, each what validating that road's lane sections yields |
| MapValidation.FirstError | hackatum-2019/src/xodr/xodr_map.cpp:216-219 | the loop stops at the first road that throws: none is found exactly when every road passes, and every road before the one found passes |
| MapValidation.Validate | hackatum-2019/src/xodr/xodr_map.cpp:214-229 | validation returns normally exactly when every road passes and the later checks pass; a map that gets past the roads has all junction and road indices in range |
| MapValidation.LaterChecks | hackatum-2019/src/xodr/xodr_map.cpp:221-228 | the checks after the roads pass exactly when junction membership passes and link validation collects no error |
| MapValidation.ValidateReportsFirstFailure | hackatum-2019/src/xodr/xodr_map.cpp:214-229 | the message thrown is the first failing road's, else the membership message, else the fixed link-validation message, which is thrown exactly when link validation collects an error |
| MapValidation.ValidMapIsConsistent | hackatum-2019/src/xodr/xodr_map.cpp:214-229 | a map that validates has every road's links confirmed by the roads they name, and a road belongs to a junction exactly when that junction lists it as a connecting road |
| Polynomials.Poly3.Eval | hackatum-2019/src/xodr/poly3.h:101 | Horner's scheme equals the expanded cubic `a + b t + c t² + d t³` |
| Polynomials.Poly3.EvalDerivative | hackatum-2019/src/xodr/poly3.h:109 | the nested form equals the expanded derivative `b + 2c t + 3d t²` |
| Polynomials.Poly3.EvalAntiDerivative | hackatum-2019/src/xodr/poly3.h:126-129 | the nested form equals the expanded antiderivative `a t + b t²/2 + c t³/3 + d t⁴/4` |
| Polynomials.Poly3.Translate | hackatum-2019/src/xodr/poly3.cpp:74-82 | translating keeps the cubic coefficient `d` |
| Polynomials.Poly3.Scale | hackatum-2019/src/xodr/poly3.cpp:84-91 | scaling keeps the constant coefficient `a` |
| Polynomials.Add | hackatum-2019/src/xodr/poly3.h:70-94 | the sum evaluates to the sum of the values at every `t` |
| Polynomials.Taylor | hackatum-2019/src/xodr/poly3.h:101-118 | exact Taylor expansion: `evalDerivative` and `eval2ndDerivative` are the first and second derivatives of `eval` |
| Polynomials.AntiDerivativeTaylor | hackatum-2019/src/xodr/poly3.h:101-129 | `evalAntiDerivative` vanishes at 0 and has `eval`, `evalDerivative` and `eval2ndDerivative` as its first three derivatives |
| Polynomials.AntiTermB | hackatum-2019/src/xodr/poly3.h:126-129 | the expansion of the `b` term of the antiderivative at `t + h` |
| Polynomials.AntiTermC | hackatum-2019/src/xodr/poly3.h:126-129 | the expansion of the `c` term of the antiderivative at `t + h` |
| Polynomials.AntiTermD | hackatum-2019/src/xodr/poly3.h:126-129 | the expansion of the `d` term of the antiderivative at `t + h` |
| Polynomials.TranslateEval | hackatum-2019/src/xodr/poly3.cpp:74-82 | `translate(o)` at `t` equals the original at `t - o`, for every `t` and `o` |
| Polynomials.TranslateIsNotForwardShift | hackatum-2019/src/xodr/poly3.h:149-156 | the shift documented as `eval(t + offset)` does not hold: `p(t) = t`, offset 1, at 0 |
| Polynomials.ScaleEval | hackatum-2019/src/xodr/poly3.cpp:84-91 | `scale(f)` at `t` equals the original at `t f`, for every `t` and `f` |
| Polynomials.TranslateScaleIdentity | hackatum-2019/src/xodr/poly3.cpp:74-91 | `translate(0)` and `scale(1)` return the same coefficients |
| ObjExport.SurfaceIsShown | hackatum-2019/src/xodr_viewer/xodr_viewer_window.cpp:132-136 | the viewer draws exactly the exported surface lane types (driving, border) plus sidewalks |
| ObjExport.ScanSelects | hackatum-2019/src/xodr_viewer/xodr_viewer_window.cpp:159-169 | the first/last scan, from any consistent intermediate state, ends with `left` the first and `right` the last driving or border lane, or with nothing chosen when there is none |
| ObjExport.Select | hackatum-2019/src/xodr_viewer/xodr_viewer_window.cpp:159-170 | the corrected scan (bounded by the lane count) chooses the first and last driving or border lane, and skips the section when there is none |
| ObjExport.ScanPastEnd | hackatum-2019/src/xodr_viewer/xodr_viewer_window.cpp:161-163 | a scan that runs beyond the last lane always reaches the read of `lanes[lanes.size()]` |
| ObjExport.SelectAsWrittenReadsPastEnd | hackatum-2019/src/xodr_viewer/xodr_viewer_window.cpp:161-163 | as written (loop over the `lanes + 1` boundaries), every section's scan reads one lane past the end |
| ObjExport.Layer | hackatum-2019/src/xodr_viewer/xodr_viewer_window.cpp:175-186 | a vertex layer alternates left and right boundary samples, sample `k/2` at position `k`, all at one height |
| ObjExport.SegmentVertices | hackatum-2019/src/xodr_viewer/xodr_viewer_window.cpp:173-186 | a segment writes four vertices per sample: a top layer then a bottom layer |
| ObjExport.VertexIndexAddresses | hackatum-2019/src/xodr_viewer/xodr_viewer_window.cpp:175-186 | the 1-based OBJ index of (boundary, sample, layer) lies in `[1, 4 size]` and names exactly that vertex line |
| ObjExport.Triangles | hackatum-2019/src/xodr_viewer/xodr_viewer_window.cpp:187-190 | the surface triangles are `j, j+1, j+2` for consecutive `j` from 1, one per loop step |
| ObjExport.Sides | hackatum-2019/src/xodr_viewer/xodr_viewer_window.cpp:191-194 | the side quads join top vertex `j` and `j+2` with the bottom vertices `2 size` below them |
| ObjExport.FacesAsWritten | hackatum-2019/src/xodr_viewer/xodr_viewer_window.cpp:187-196 | as written a segment of `size >= 2` samples gets `size-2` triangles, `size-1` sides and two caps |
| ObjExport.Faces | hackatum-2019/src/xodr_viewer/xodr_viewer_window.cpp:187-196 | with both loops over the whole top strip a segment gets `4 size - 2` faces |
| ObjExport.IndicesInConcat | hackatum-2019/src/xodr_viewer/xodr_viewer_window.cpp:187-196 | face lists whose indices lie in a range can be written one after the other and stay in range |
| ObjExport.UsesConcat | hackatum-2019/src/xodr_viewer/xodr_viewer_window.cpp:187-196 | a vertex is used by two face lists written in turn exactly when one of them uses it |
| ObjExport.TrianglesInRange | hackatum-2019/src/xodr_viewer/xodr_viewer_window.cpp:188-190 | the triangle indices stay within the vertices written when the loop bound leaves room for `j+2` |
| ObjExport.SidesInRange | hackatum-2019/src/xodr_viewer/xodr_viewer_window.cpp:192-194 | the side indices stay within the vertices written when the loop bound leaves room for `j+2+2 size` |
| ObjExport.CapsInRange | hackatum-2019/src/xodr_viewer/xodr_viewer_window.cpp:195-196 | both caps index only the segment's `4 size` vertices |
| ObjExport.FacesAsWrittenInRange | hackatum-2019/src/xodr_viewer/xodr_viewer_window.cpp:187-196 | as written, no face of a segment of at least one sample indexes outside its `4 size` vertices |
| ObjExport.FacesInRange | hackatum-2019/src/xodr_viewer/xodr_viewer_window.cpp:187-196 | the corrected faces index only the segment's own `4 size` vertices |
| ObjExport.FacesAsWrittenMissTopStrip | hackatum-2019/src/xodr_viewer/xodr_viewer_window.cpp:188-194 | as written the triangles reach only top vertex `size` of `2 size`, and from four samples on, one top vertex belongs to no face |
| ObjExport.FacesUseEveryVertex | hackatum-2019/src/xodr_viewer/xodr_viewer_window.cpp:187-196 | with the corrected loops every top vertex is in some triangle and every vertex of the segment in some face |
| ObjExport.Shift | hackatum-2019/src/xodr_viewer/xodr_viewer_window.cpp:188-196 | offsetting faces keeps their shape and adds the offset to every index |
| ObjExport.NumberedSnoc | hackatum-2019/src/xodr_viewer/xodr_viewer_window.cpp:141-174 | a segment numbered after, and counting the vertices of, the earlier ones extends a consistently numbered list without changing it |
| ObjExport.EmitAsWritten | hackatum-2019/src/xodr_viewer/xodr_viewer_window.cpp:139-200 | as written one segment per section with a driving or border lane, numbered consecutively, each with faces counted from vertex 1 |
| ObjExport.Emit | hackatum-2019/src/xodr_viewer/xodr_viewer_window.cpp:139-200 | corrected: one numbered segment per section with a driving or border lane, each with its faces offset by the vertices written before it and its strip between two distinct boundaries |
| ObjExport.SelectedLanesBetween | hackatum-2019/src/xodr_viewer/xodr_viewer_window.cpp:171-172 | every driving or border lane, both its boundaries included, lies between boundary `left` and boundary `right + 1`, which exists |
| ObjExport.SingleLaneStripHasNoWidth | hackatum-2019/src/xodr_viewer/xodr_viewer_window.cpp:171-172 | a section with one driving lane: as written the strip runs from boundary 0 to boundary 0, corrected from boundary 0 to boundary 1 |
| ObjExport.VertexLinesConcat | hackatum-2019/src/xodr_viewer/xodr_viewer_window.cpp:174-196 | the vertex lines of text written in turn add up |
| ObjExport.VertexLinesAll | hackatum-2019/src/xodr_viewer/xodr_viewer_window.cpp:175-186 | a run of vertex lines counts one per line |
| ObjExport.VertexLinesNone | hackatum-2019/src/xodr_viewer/xodr_viewer_window.cpp:174-196 | object and face lines add no vertices |
| ObjExport.RenderVertexCount | hackatum-2019/src/xodr_viewer/xodr_viewer_window.cpp:139-200 | the OBJ text holds exactly the vertices the segments count, so a segment's vertices follow the `verticesBefore` earlier ones |
| ObjExport.EmitCountsSegments | hackatum-2019/src/xodr_viewer/xodr_viewer_window.cpp:141-174 | `seg_num` rises by one per emitted segment, and a segment is emitted exactly for each section with a driving or border lane |
| ObjExport.EmitFacesOwnVertices | hackatum-2019/src/xodr_viewer/xodr_viewer_window.cpp:139-200 | corrected: each segment's faces use only that segment's own vertices in the whole file |
| ObjExport.EmitAsWrittenReusesIndices | hackatum-2019/src/xodr_viewer/xodr_viewer_window.cpp:187-196 | as written, a segment written after at least its own vertex count uses none of its own vertices |
| ObjExport.SecondSegmentReusesFirst | hackatum-2019/src/xodr_viewer/xodr_viewer_window.cpp:139-200 | two two-sample sections: as written, the second segment's faces lie among the first segment's eight vertices |
| BoundingRects.Expand | hackatum-2019/src/xodr_viewer/bounding_rect.cpp:7-14 | the expanded rectangle contains the point and the old rectangle |
| BoundingRects.EmptyContainsNothing | hackatum-2019/src/xodr_viewer/bounding_rect.cpp:18-20 | the starting rectangle (`min_` at `DBL_MAX`, `max_` at `-DBL_MAX`) contains no finite point |
| BoundingRects.ExpandKeepsContained | hackatum-2019/src/xodr_viewer/bounding_rect.cpp:7-14 | expanding never loses a point already inside |
| BoundingRects.ExpandMinimal | hackatum-2019/src/xodr_viewer/bounding_rect.cpp:7-14 | every rectangle holding the old one and the point holds the expanded one, so expanding adds nothing more than needed |
| BoundingRects.ExpandInsideNoop | hackatum-2019/src/xodr_viewer/bounding_rect.cpp:7-14 | expanding by a point already inside leaves the rectangle unchanged |
| BoundingRects.ExpandAll | hackatum-2019/src/xodr_viewer/bounding_rect.cpp:22-31 | expanding by points in turn keeps the start inside and contains every point |
| BoundingRects.MapPoints | hackatum-2019/src/xodr_viewer/bounding_rect.cpp:22-31 | a non-empty map visits at least one point |
| BoundingRects.MapPointsHasVertices | hackatum-2019/src/xodr_viewer/bounding_rect.cpp:22-31 | every road's geometry start vertices and end vertex are visited |
| BoundingRects.MapPointsOnlyVertices | hackatum-2019/src/xodr_viewer/bounding_rect.cpp:22-31 | only geometry start vertices and end vertices are visited |
| BoundingRects.ApproxBoundingRect | hackatum-2019/src/xodr_viewer/bounding_rect.cpp:16-34 | the result contains every visited point |
| BoundingRects.ApproxContainsVertices | hackatum-2019/src/xodr_viewer/bounding_rect.cpp:16-34 | the result contains every geometry start vertex and every road's end vertex |
| BoundingRects.ExpandAllAttained | hackatum-2019/src/xodr_viewer/bounding_rect.cpp:7-31 | each corner coordinate of the result is the start's or some visited point's |
| BoundingRects.ApproxIsHull | hackatum-2019/src/xodr_viewer/bounding_rect.cpp:16-34 | for finite points the result is the componentwise minimum and maximum of the visited points, and the empty rectangle when there are none |
| BoundingRects.HullUnique | hackatum-2019/src/xodr_viewer/bounding_rect.cpp:16-34 | there is only one tightest rectangle for a set of points |
| BoundingRects.ApproxOrderIndependent | hackatum-2019/src/xodr_viewer/bounding_rect.cpp:16-34 | the result depends only on the set of visited points, not on road or geometry order |

## Left out

- XML I/O is left out. This covers TinyXML and the `XodrReader` cursor, and `fromFile`/`fromText` in `xodr_map.cpp`, `reference_line_parser.cpp` and `xodr_reader.cpp`. The parser engine is fed the names the cursor would yield, and each leaf parser's outcome is an input.
- `std::stoi`, `std::stod` and the numeric attribute conversion are library calls. Their results arrive already converted, as `Option` values.
- Transcendental geometry is left out: spirals (the foreign `odrSpiral` call), arcs, `Poly3Geom`, `ParamPoly3` evaluation and end vertices, headings and x/y positions. Only s-coordinates are modelled. Tessellation positions and the 2D boundary curves (sin/cos, vector norms) are left out for the same reason.
- ReferenceLines.GeometryStep, ReferenceLines.ReadGeometries, ReferenceLines.ParsePlanView and ReferenceLines.PlanViewOf model the corrected loop, in which a `<geometry>` of an unknown kind is consumed to its end tag. ReferenceLines.ParsePlanViewAsWritten models the code, for an empty unknown element; an unknown element with children makes `readEndElement` throw, and what the enclosing `<road>` loop does with the rest of `<planView>` is not modelled.
- ReferenceLines.ParseSpiral: the curvature rate `(curvEnd - curvStart) / length` counts as zero exactly when the length is not zero and the two curvatures are equal. This matches IEEE division for a zero length, where the quotient is NaN or infinite. A non-zero rate that underflows to zero in floating point is not modelled.
- ReferenceLines.GeometryContaining: the `int` indices of the search are modelled by requiring fewer than 2^31 geometries. It also requires a geometry: the source does not assert one, and on an empty line its first step reads `geometries_[0]` out of bounds.
- Every C++ `double` is modelled as an exact `real`: rounding, NaN and infinities are not modelled.
- LaneSections.TessellateLaneBoundaries, ReferenceLines.SampleSCoords, ReferenceLines.StepBounds and ReferenceLines.SampleSCoordsIncrease state exact sums and steps. The rounded C++ values can differ from them in the last place; in particular the last sample need not equal `endS` exactly.
- LaneSections.ValidateAttribSCoords and ReferenceLines.AttribChecks compare exact values. A NaN attribute value, for which every C++ comparison is false, is not modelled.
- `Poly3::minValueInInterval` and `maxValueInInterval` are left out because they use `sqrt` and epsilon thresholds.
- Polynomials.Poly3.Translate follows the code: `translate(o).eval(t) == eval(t - o)`. The doc comment at `hackatum-2019/src/xodr/poly3.h:149-156` describes `eval(t + o)`, and Polynomials.TranslateIsNotForwardShift shows that formula does not hold.
- LaneLinkValidation.LinkInRange follows the code, which accepts both ends of the lane-ID range inclusively, although the doc comment calls the maximum exclusive.
- The error `description()` strings of the link and lane-link validators are left out (`hackatum-2019/src/xodr/validation/lane_link_validation.cpp:561-605`, `hackatum-2019/src/xodr/validation/road_link_validation.cpp:271-374`). The errors are modelled as tagged records.
- XodrMaps.Linked is the well-formedness the validators rely on: every resolved index is in range. The source asserts this point by point as it dereferences.
- Junctions.FindConnection, Junctions.HasConnection and Junctions.HasOutgoingConnection require every connection's road references to be resolved. The source asserts this only for the connections a query visits.
- XodrMaps.ResolvedRoad: a road whose `resolveReferences` throws keeps its unresolved references in the model. The source leaves it partially resolved.
- ParserTables: the visited mask is a set of table positions. The undefined `1 << 32` shift for more than 32 parsers is not modelled.
- ParserTables.SortByName: `std::sort` is modelled as some sorted permutation of the table; the particular order of equal names is not fixed.
- JunctionValidation.ValidateJunctionMembership: a connection whose connecting road belongs to no junction (`junction="-1"`) fails the `index()` assertion at `junction_validation.cpp:39` in a build with assertions. The model reports it as a foreign connecting road, which is what a build without assertions throws.
- RoadLinkEnumeration.JunctionRoadLinkReportedOnce and RoadLinkEnumeration.JunctionConnectionReportedOnce require that the far road's link at that end does not lead back to the reporting road, which the comment at `xodr_utils_impl.h:31-36` takes for granted. When the far road does link back, by a road link from inside a junction or from the lower index, the pair is reported twice; no exactly-once promise is made for that case, nor for a connection a junction lists twice.
- RoadLinkEnumeration.MutualLinkReportedOnce requires two different roads. A road outside a junction that links to itself is never reported, because `roadIdx < roadIdx` is false.
- RoadLinkValidation and the enumeration use the corrected lane-link and junction branches described under Findings.
- Roads.ParseObjectsAsWritten treats the not-implemented children as empty elements. What the enclosing `<road>` loop then does with the remaining children of `<objects>` (unexpected-child errors, and the road ending at `</objects>`) is not modelled, and the rest of the model uses Roads.ParseObjects.
- The `<repeat>`, `<validity>` and `<parkingSpace>` children of a road object only append "not implemented" warnings. They are not modelled.
- The attribute and child wiring with no logic of its own is left out: `lane_attributes.cpp`, `elevation.cpp`, `junction_parser.cpp` and `road_object_outline.cpp`.
- The validators whose implementations are not part of this model are left out: road width, geometric adjacency, boundary intersection, curvature polynomials and elevation slope.
- ObjExport: vertex coordinates are abstracted to opaque points, so number formatting and NaN or infinite coordinates are not modelled. The winding order of faces is not claimed.
- ObjExport.EmitAsWritten uses the corrected selection scan, bounded by the lanes, so that it isolates the missing index offset and the boundary `right` taken as the strip's outer edge.
- ObjExport.CapsInRange states the end-cap bounds for segments with at least one vertex pair. A boundary with no vertices gives caps with indices outside the segment, and no contract is stated for that case.
- LaneIds: a `LaneID` is modelled as its wrapped `int`, so its six comparison operators are Dafny's integer comparisons and no member restates them. The same holds for `Poly3`'s `==` and `+=`, which are datatype equality and Polynomials.Add.
- The Qt viewer UI (`paintEvent`, view transforms, window construction), `xodr_converter.cpp`, the Unity scripts, ownership plumbing (`unique_ptr`, `clone`) and `boost::variant` visitors are left out. They are UI, engine or plumbing code.

## Findings

| source | as written | input that shows it | evidently intended | confidence | as-written member | corrected member |
|---|---|---|---|---|---|---|
| hackatum-2019/src/xodr/road_object.cpp:16-36 | the object-type table has no entry for `"bus"`, yet `typeName(BUS)` is `"bus"` | a `<object type="bus">` | `"bus"` decodes to `BUS`, so decoding inverts `typeName` | high, not executed | RoadObjects.BusNameNotDecoded | RoadObjects.ParseTypeRoundTrip |
| hackatum-2019/src/xodr/road_parser.cpp:26-53 | the `<laneSection>` callback keeps the parsed section's value but drops its errors | a lane section whose lane IDs are not consecutive | the section's errors and invalidations reach the road | high, not executed | Roads.LaneSectionErrorsDropped | Roads.LaneSectionsValidity |
| hackatum-2019/src/xodr/road_parser.cpp:119-132 | a `<lanes>` with no `<laneSection>` reports a missing child without invalidating geometry, so `laneSections_.back()` is read on an empty vector | `<lanes></lanes>` in a road with a valid length | a missing lane section invalidates the geometry, so the finishing steps are skipped | high, not executed | Roads.EmptyLanesReachesBack | Roads.FinishRoad |
| hackatum-2019/src/xodr/xodr_map.cpp:82-93 | the duplicate-junction message prints `roads_[i].id()`, a road's id, not the junction's | two junctions with the same id | the message names the duplicated junction id | high, not executed | XodrMaps.DuplicateJunctionNamesRoad | XodrMaps.ResolveReferences |
| hackatum-2019/src/xodr/validation/lane_link_validation.cpp:192-222 | when the range check fails, the connecting-to-incoming validator appends the error but leaves `success` true | a connecting road whose lane links to the centre lane 0 of the incoming road | a failed range check makes the result false, as in the road-to-road validator | high, not executed | LaneLinkValidation.CenterLinkKeepsSuccess | LaneLinkValidation.ConnectingIncoming |
| hackatum-2019/src/xodr/xodr_utils_impl.h:77-97 | the junction branch reads `roadLink.contactPoint()`, which asserts a road link, on a link to a junction | a connecting road whose successor is a second junction in which it is an incoming road | the to-key takes the contact point named by the connection | high, not executed | RoadLinkEnumeration.ConnectingRoadIntoJunction | RoadLinkEnumeration.JunctionEvents |
| hackatum-2019/src/xodr/xml/xml_attribute_parsers_impl.h:45-46 | the unexpected-attribute error records the attribute's value instead of its name | an element with an attribute `foo="1"` that no parser handles | the error names the attribute | high, not executed | AttributeParsers.UnexpectedAttributeNamesValue | AttributeParsers.UnexpectedAttributeReported |
| hackatum-2019/src/xodr/units.cpp:39-42 | `"mps"` decodes to miles per hour and `"mph"` is rejected | `unit="mph"` | `"mph"` decodes to miles per hour | medium, not executed | Units.MilesPerHourRejected | Units.SpeedKeyword |
| hackatum-2019/src/xodr_viewer/xodr_viewer_window.cpp:159-170 | the selection loop runs to `boundaries.size()`, one more than there are lanes, and reads `lanes[lanes.size()]` | any lane section that gets exported | the loop covers the lanes only | high, not executed | ObjExport.SelectAsWrittenReadsPastEnd | ObjExport.Select |
| hackatum-2019/src/xodr_viewer/xodr_viewer_window.cpp:141-196 | face indices depend only on the segment's size, with no running offset, so every later segment's faces point at the first segment's vertices | two exported lane sections | each segment's faces address its own vertices | high, not executed | ObjExport.SecondSegmentReusesFirst | ObjExport.EmitFacesOwnVertices |
| hackatum-2019/src/xodr_viewer/xodr_viewer_window.cpp:188-193 | the surface triangles stop at vertex `size`, half of the `2 * size` top vertices | a boundary with three vertex pairs | the triangle strip covers every top vertex | medium, not executed | ObjExport.FacesAsWrittenMissTopStrip | ObjExport.FacesUseEveryVertex |
| hackatum-2019/src/xodr/road_parser.cpp:66-76 | the `objectReference`, `tunnel` and `bridge` handlers append a warning but do not call `skipToEndElement`, unlike the not-implemented handlers of `road_object.cpp`, so the loop takes the element's end tag for the end of `<objects>` | `<objects><tunnel/><object .../></objects>` | the element is skipped and the remaining children of `<objects>` are read | high, not executed | Roads.TunnelEndsObjects | Roads.ParseObjects |
| hackatum-2019/src/xodr/reference_line_parser.cpp:110-118 | for an element that is not a geometry kind, the single `readEndElement` consumes that element's end tag, not the `<geometry>`'s, so the loop takes `</geometry>` for the end of `<planView>` | `<planView><geometry ...><clothoid/></geometry><geometry ...><line/></geometry></planView>` | the unknown element is skipped and the remaining geometries are read | high, not executed | ReferenceLines.UnknownKindEndsPlanView | ReferenceLines.ParsePlanView |
| hackatum-2019/src/xodr_viewer/xodr_viewer_window.cpp:171-172 | the right edge of the strip is `boundaries[right]`, the inner boundary of the last driving or border lane, since lane `i` lies between boundaries `i` and `i + 1` | a lane section with one driving lane, where `left == right` gives a strip of no width | the right edge is `boundaries[right + 1]`, the outer boundary of the last selected lane | medium, not executed | ObjExport.SingleLaneStripHasNoWidth | ObjExport.Emit |
