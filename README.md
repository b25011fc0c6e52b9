# decloud sample selection, in Dafny

A Dafny model of the deterministic core of decloud. decloud builds training samples for optical cloud removal from Sentinel-1 (SAR) and Sentinel-2 (optical) time series, and pairs SAR and optical images for time-series reconstruction. The model covers:

- **`SensingLayout`** (`layout.dfy`): the acquisition layout of `sensing_layout.py`. It is an insertion-ordered mapping from slot name to S1 spec, S2 spec, S1/S2 gap and time window. `new_acquisition` checks a slot and may fail after it has already inserted the entry. The queries are `is_ref`, `get_ref_name`, `is_siblings`, `has_*`/`get_*_acquisition`, the timestamp range and the maximum S1/S2 gap.
- **`AcquisitionFactory`** (`factory.dfy`): `get_acquisition`. It turns the mapping `json.load` made of a layout file into `new_acquisition` calls on a fresh layout. **`JsonData`** (`json.dfy`) holds the parsed JSON values.
- **`Raster`** (`raster.dfy`): `get_sub_arr`, the footprint of one patch-grid cell in a statistics raster.
- **`TileIndex`** (`tileindex.dfy`): the index `TileHandler.__init__` builds over a tile. It holds per-image validity and cloud-coverage grids, the closest valid S1 image of every S2 image at every cell, and the 4-D box trees that `find_s2` queries.
- **`TupleSearch`** (`tuplesearch.dfy`): `tuple_search`. It excludes cells outside the ROI and runs one round per reference S2 image. A round stops at the first empty slot. Complete rounds get their `"s1"` keys and are expanded into the cartesian product of their candidates.
- **`TileNames`** (`tilenames.dfy`): `s1_filename_to_md` and `s2_filename_to_md`, and the keys `read_tuple` files the patches of a sample under, with the exception it raises for an unknown sensor key or for an S1 image on a handler built without S1 images.
- **`Dataset`** (`dataset.dfy`): the `Buffer`, the random and constant iterators, the recursive `update`, the oversampling iterator over four month buckets, the limited iterator, and `Dataset`'s double buffer (`size`, `read_one_sample`, `_dump`, `_collect`), run sequentially.
- **`PreProcessor`**, **`ImageStacks`** and **`PixelFunctor`** (`preprocessor.dfy`, `stacks.dfy`, `pixelfunction.dfy`): the SAR/optical pairing application `otbDecloudTimeSeriesPreProcessor`.
  - timestamps with their indices, and the three sort modes;
  - pairs within the maximum gap;
  - the dense renumbering of the images the pairs use;
  - the per-pixel function;
  - the output channel ranges.
- **`NClosest`** (`nclosest.dfy`): `get_nclosest` of the time-series production script.
- **`TfRecords`** (`tfrecord.dfy`): the shard plan and GeoJSON rings of `ds2tfrecord`, the saved output shapes, `parse_tfrecord`'s split into inputs and targets, and `read`'s trim of the record files to a multiple of the workers.
- **`System`** (`system.dfy`): `pathify`, `new_bname`, `remove_ext_filename`, `to_vsizip`, the completion markers, and the suffix filter of `get_files`.
- **`PyStr`**, **`PyDict`** and **`Wrappers`** (`pystr.dfy`, `pydict.dfy`, `wrappers.dfy`): the Python string and dict semantics the code relies on (lower-casing covers ASCII letters only), and `Result`/`Option`. An operation that raises in the source returns `Err` with the exception's class name or message.

Code that mutates state is modelled with classes and methods: the layout, the tile handler's grids and tables, the buffers and iterators, and the pixel function. Pure code is modelled with functions. Each method is proved against a specification function, and lemmas state what those functions mean.

## Model

| member | source | states |
|---|---|---|
| System.Pathify | decloud/core/system.py:86-90 | the result always ends with "/"; it is the input when the input already ended with "/", and the input followed by "/" otherwise |
| System.PathifyIdempotent | decloud/core/system.py:86-90 | `pathify` applied twice gives the same path as applied once |
| System.NewBnameOfPath | decloud/core/system.py:79-83 | for `dir/stem.ext` with no "/" in stem or extension and no "." in the extension, the new basename is "/" + stem + "_" + suffix: the directory and the extension are dropped, the leading "/" is kept |
| System.NewBnameNoSlash | decloud/core/system.py:79-83 | without any "/", `rfind` yields -1, so the slice keeps only the last character before the extension cut and the suffix |
| System.RemoveExtFilename | decloud/core/system.py:133-137 | without "?" the name is unchanged; with one, the result is the proper prefix ending just before the last "?" (no "?" follows it) |
| System.CompleteMarker | decloud/core/system.py:140-158 | the completion marker's name ends with ".complete" |
| System.DeclareComplete | decloud/core/system.py:140-145 | declaring completion adds exactly the marker file to the set of existing files |
| System.DeclareThenIsComplete | decloud/core/system.py:140-158 | after `declare_complete(f)`, `is_complete` holds for `f` and for `f` with any extended-filename options "?..." appended |
| System.ToVsizip | decloud/core/system.py:128-130 | the virtual path is "/vsizip/" + zip file name + "/" + relative path, each part recoverable at its offset |
| System.SelectedMembers | decloud/core/system.py:61-76 | a path is returned iff it was walked and either no (or an empty) extension is given or its lower-cased name ends with the lower-cased extension; never more paths than walked |
| System.GetFiles | decloud/core/system.py:61-76 | the loop returns exactly the kept paths in walk order, and every walked path when no extension is given |
| SensingLayout.GetRefName | decloud/acquisitions/sensing_layout.py:135-143 | a returned name is the slot at the first position whose `is_ref` answers True, all earlier ones answering False; when every slot answers False the call raises |
| SensingLayout.RefFrom | decloud/acquisitions/sensing_layout.py:139-143 | the loop from position i returns the first reference slot at or after i, after slots that all answer False; an exception only where no such slot is reached |
| SensingLayout.RefNameIsFirst | decloud/acquisitions/sensing_layout.py:129-143 | when slot k is a reference and every slot before it answers False, `get_ref_name` returns slot k's name |
| SensingLayout.GetTimestampRange | decloud/acquisitions/sensing_layout.py:145-149 | succeeds exactly when the slot exists and both window keys were written |
| SensingLayout.GetS1S2MaxTimestampDelta | decloud/acquisitions/sensing_layout.py:151-156 | succeeds exactly when the slot exists and its gap key was written |
| SensingLayout.HasS1 | decloud/acquisitions/sensing_layout.py:163-167 | answers exactly for existing slots (KeyError otherwise) |
| SensingLayout.HasS2 | decloud/acquisitions/sensing_layout.py:169-173 | answers exactly for existing slots (KeyError otherwise) |
| SensingLayout.GetS1 | decloud/acquisitions/sensing_layout.py:158-180 | returns None exactly when `has_s1_acquisition` is False and a value exactly when it is True; raises exactly where it raises |
| SensingLayout.GetS2 | decloud/acquisitions/sensing_layout.py:158-187 | returns None exactly when `has_s2_acquisition` is False and a value exactly when it is True; raises exactly where it raises |
| SensingLayout.InGroup | decloud/acquisitions/sensing_layout.py:123-125 | over one siblings group: True only if some listed slot is in the group together with `name`; when `name in group` is defined the answer is exactly that existential; an empty list gives False |
| SensingLayout.InGroups | decloud/acquisitions/sensing_layout.py:122-125 | over all groups: True only if some group holds `name` and a listed slot; exactly that when every membership test is defined |
| SensingLayout.IsSiblings | decloud/acquisitions/sensing_layout.py:117-127 | False when `OPTIONS` has no "siblings" key; True only if some group holds `name` and one of the listed slots, and exactly that when the groups can be iterated and tested |
| SensingLayout.S1CellError | decloud/acquisitions/sensing_layout.py:207-222 | `_cell_s1` prints exactly when the slot exists and, for an S1 slot, its gap is stored and not None; a missing slot or gap key raises KeyError, a None gap raises TypeError |
| SensingLayout.S2CellError | decloud/acquisitions/sensing_layout.py:224-229 | `_cell_s2` prints exactly when the slot exists and, for an S2 slot, both window keys are stored; otherwise it raises KeyError |
| SensingLayout.S1RowFrom | decloud/acquisitions/sensing_layout.py:240 | the S1 row from slot i on passes exactly when every cell prints, and otherwise raises the exception of its first failing cell |
| SensingLayout.S2RowFrom | decloud/acquisitions/sensing_layout.py:241 | the S2 row from slot i on passes exactly when every cell prints, and otherwise raises KeyError |
| SensingLayout.Summarize | decloud/acquisitions/sensing_layout.py:189-251 | the table is printed without exception exactly when every slot with S1 has a stored numeric gap and every slot with S2 has both window keys. The whole S1 row is built first, so the exception is that of the first failing S1 cell, whatever the S2 cells; with every S1 cell printable it is KeyError, raised exactly when some S2 cell lacks a window key |
| SensingLayout.SummarizeS1RowFirst | decloud/acquisitions/sensing_layout.py:239-241 | an S2 slot without its window before an S1-only slot with the gap None gives TypeError from the S1 row, not KeyError from the S2 row |
| SensingLayout.WindowEndpoints | decloud/acquisitions/sensing_layout.py:111-112 | the stored window is begin = min(start, end)·3600 and end = max(start, end)·3600: begin ≤ end, and swapping the arguments changes nothing |
| SensingLayout.AddedOkIff | decloud/acquisitions/sensing_layout.py:83-112 | for a new name, `new_acquisition` returns normally exactly when every assertion holds and both hours are numbers. The assertions are: a sensor is given; a positive numeric gap when both sensors are; and, for an origin, zero hours and no other reference |
| SensingLayout.AddedPartial | decloud/acquisitions/sensing_layout.py:84-112 | the sensor keys are always written; with no sensor the slot's dict stays empty and the call fails; a failed call never writes the window keys |
| SensingLayout.AddedStored | decloud/acquisitions/sensing_layout.py:97-112 | a slot added normally stores gap·3600 (positive) when both sensors are given and None otherwise, and the window [min, max] of the hours in seconds |
| SensingLayout.OthersUnchanged | decloud/acquisitions/sensing_layout.py:84-133 | inserting a new slot leaves every older slot's `is_ref` answer unchanged |
| SensingLayout.AddedRef | decloud/acquisitions/sensing_layout.py:104-143 | a slot added normally is a reference exactly when both hours are 0 (there is no stored origin flag); one added with `timeframe_origin=True` is what `get_ref_name` then returns |
| SensingLayout.FillEntry | decloud/acquisitions/sensing_layout.py:84-112 | the writes into the new dict, up to the first failed assertion, give exactly the specified partial entry and outcome |
| SensingLayout.WriteSensors | decloud/acquisitions/sensing_layout.py:85-101 | the sensor and gap writes give exactly the specified entry and outcome. A missing sensor, or a None or non-positive gap when both sensors are given, raises AssertionError; a gap that is not a number raises TypeError |
| SensingLayout.SensorsStep | decloud/acquisitions/sensing_layout.py:84-101 | the sensor keys are written as given and no window yet. The step passes exactly when a sensor is given and, with both sensors, the gap is a number above 0; with no sensor the dict stays empty |
| SensingLayout.WindowFrom | decloud/acquisitions/sensing_layout.py:104-112 | the window step keeps the sensors and gap, succeeds exactly when the origin assertions passed and both hours are numbers, and on failure leaves the dict as it was |
| SensingLayout.WriteWindow | decloud/acquisitions/sensing_layout.py:104-112 | the origin checks and window writes give exactly the specified entry and outcome: the exception of the first failing origin assertion, then TypeError for hours that are not numbers, and otherwise the window is written |
| SensingLayout.CheckOrigin | decloud/acquisitions/sensing_layout.py:104-110 | returns the exception of the first failing origin assertion in source order: an `is_ref` that raises, another reference slot, then non-zero hours. It passes exactly when the call is not an origin, or no other slot is a reference and both hours are 0 |
| SensingLayout.OriginFromPass | decloud/acquisitions/sensing_layout.py:106-110 | the origin assertions from slot i on pass exactly when no slot from i on is a reference and both hours equal 0 |
| SensingLayout.OriginOutcomeMeaning | decloud/acquisitions/sensing_layout.py:104-110 | the origin assertions pass exactly when the call is not an origin, or no other slot is a reference and both hours are 0 |
| SensingLayout.AcquisitionsLayout.constructor | decloud/acquisitions/sensing_layout.py:61 | a new layout has no slots and empty `OPTIONS` |
| SensingLayout.AcquisitionsLayout.Options | decloud/acquisitions/sensing_layout.py:114-115 | replaces `OPTIONS` and nothing else |
| SensingLayout.AcquisitionsLayout.NewAcquisition | decloud/acquisitions/sensing_layout.py:63-112 | an existing name raises AssertionError and leaves the layout unchanged. Otherwise the slot is inserted at the end even when a later assertion fails, with its dict left as written so far, and the call raises exactly the exception of the first failing assertion. It succeeds exactly when all assertions hold and the hours are numbers, and an origin slot then becomes `get_ref_name`'s answer |
| JsonData.Index | decloud/acquisitions/acquisition_factory.py:48-49 | `v[key]` with a string key: the stored value for a mapping that has the key, KeyError for a mapping without it, TypeError for a string, list, number, boolean or None |
| AcquisitionFactory.SensorStep | decloud/acquisitions/acquisition_factory.py:49 | an acquisition spec that is not a mapping raises TypeError, and a mapping without "type" raises KeyError |
| AcquisitionFactory.SensorsErrClass | decloud/acquisitions/acquisition_factory.py:48-49 | the first acquisition spec that cannot be indexed by "type" decides the inner loop's exception: TypeError for a non-mapping, KeyError for a mapping without the key |
| AcquisitionFactory.ArgsOf | decloud/acquisitions/acquisition_factory.py:48 | a step value that is not a mapping raises TypeError, and a mapping without "acquisition" raises KeyError |
| AcquisitionFactory.Default | decloud/acquisitions/acquisition_factory.py:53-81 | `v[key] if key in v else d`: the stored value when the key is present, the default otherwise |
| AcquisitionFactory.S2Of | decloud/acquisitions/acquisition_factory.py:51-56 | a missing `min_cloud_percent` or `max_cloud_percent` becomes 0; a present one is passed as given |
| AcquisitionFactory.SensorsErrExtends | decloud/acquisitions/acquisition_factory.py:48-56 | once a pass of the inner loop has raised, the whole loop raises that exception |
| AcquisitionFactory.SensorsLastS2Wins | decloud/acquisitions/acquisition_factory.py:48-56 | the S2 spec is None exactly when no acquisition has type "S2"; otherwise it is built from the last "S2" acquisition listed |
| AcquisitionFactory.StepS2 | decloud/acquisitions/acquisition_factory.py:51-56 | one pass replaces the S2 spec exactly for an acquisition of type "S2" |
| AcquisitionFactory.StepS1 | decloud/acquisitions/acquisition_factory.py:49-50 | one pass sets an unoriented S1 spec exactly for an acquisition of type "S1" and keeps the previous one otherwise |
| AcquisitionFactory.SensorsS1Given | decloud/acquisitions/acquisition_factory.py:48-50 | S1 is given exactly when some acquisition has type "S1", and it is never oriented |
| AcquisitionFactory.SensorsOrbit | decloud/acquisitions/acquisition_factory.py:49-50 | when the loop succeeds every acquisition has a "type", and no "S1" acquisition's name contains "orbit": `"orbit" in acq` tests the name string, and indexing it with "orbit" raises |
| AcquisitionFactory.AcquisitionMembers | decloud/acquisitions/acquisition_factory.py:48 | `structure[step]["acquisition"]` can be iterated with working lookups exactly when it is a mapping, an empty list or an empty string; a mapping yields its keys in order |
| AcquisitionFactory.ArgsOfTimeframe | decloud/acquisitions/acquisition_factory.py:58-81 | a step's arguments exist exactly when its acquisitions can be read and it has both hours without an origin key, or neither with one; without the origin key it passes its hours and origin False; with it, its origin value and hours 0; a missing gap becomes None |
| AcquisitionFactory.BuildErrExtends | decloud/acquisitions/acquisition_factory.py:41-81 | once a step has raised, `get_acquisition` raises that same exception |
| AcquisitionFactory.BuildArgsErr | decloud/acquisitions/acquisition_factory.py:41-64 | a step whose acquisitions or timeframe keys cannot be read, after working steps, makes `get_acquisition` raise that step's exception |
| AcquisitionFactory.BuildErrClass | decloud/acquisitions/acquisition_factory.py:41-49 | after working steps, a step value that is not a mapping or an acquisition spec that is not one raises TypeError; a missing "acquisition" or "type" key raises KeyError |
| AcquisitionFactory.SlotNames | decloud/acquisitions/acquisition_factory.py:41-47 | the slot names are exactly the step names other than "options" |
| AcquisitionFactory.BuildSlots | decloud/acquisitions/acquisition_factory.py:41-66 | a built layout has one slot per non-"options" step, in file order, so "options" never becomes a slot, and every slot holds all its keys |
| AcquisitionFactory.BuildSummarizes | decloud/acquisitions/acquisition_factory.py:66-81 | a built layout passes `summarize` exactly when no slot has S1 without S2: such a slot stores the gap None, which the summary cannot convert |
| AcquisitionFactory.BuildOptions | decloud/acquisitions/acquisition_factory.py:45-46 | the options of a built layout are the value of the last "options" step, or empty without one |
| AcquisitionFactory.LastOptionsValueAt | decloud/acquisitions/acquisition_factory.py:45-46 | the options value is that of the "options" step no later step overrides, and empty when there is none |
| AcquisitionFactory.OriginKeyMakesRef | decloud/acquisitions/acquisition_factory.py:58-81 | a step with a "timeframe_origin" key, whatever its value, is stored with window [0, 0] and so answers `is_ref` with True |
| AcquisitionFactory.ReadStep | decloud/acquisitions/acquisition_factory.py:42-64 | the inner loop and the timeframe assertions of one step give exactly its specified arguments or exception |
| AcquisitionFactory.GetAcquisition | decloud/acquisitions/acquisition_factory.py:34-83 | succeeds exactly when the step-by-step build does, and returns a fresh valid layout holding the built value. Otherwise it raises the exception of the first failing step, the one that step's `new_acquisition` or argument reading raises |
| Raster.Clamp | decloud/core/raster.py:68-69 | a non-negative slice bound past the end stops at the end, and is kept otherwise |
| Raster.Slice | decloud/core/raster.py:68-69 | a numpy slice `s[lo:hi]` with non-negative bounds has length clamp(hi) − clamp(lo) |
| Raster.SubArrElements | decloud/core/raster.py:58-69 | the sub-array has at most `scale` rows; its row i, column j is row scale·y+i, column scale·x+j of the array: rows come from `patch_location[1]`, columns from `patch_location[0]` |
| Raster.SubArrInside | decloud/core/raster.py:67-69 | a footprint that lies inside a rectangular array is exactly scale × scale |
| Raster.CellOf | decloud/core/raster.py:68-69 | the cell whose footprint holds a coordinate is that coordinate divided by the scale |
| Raster.FootprintsDisjoint | decloud/core/raster.py:68-69 | the footprints of two distinct grid positions share no array position |
| Raster.SubArrInFootprint | decloud/core/raster.py:68-69 | every element of a sub-array comes from its own cell's footprint |
| TileIndex.ForEachPos | decloud/core/tile_io.py:485-494 | `for_each_pos` visits each of the gx·gy cells exactly once, with x in the outer loop and y in the inner loop |
| TileIndex.ElementsOf | decloud/core/tile_io.py:583-593 | the flattened footprint is empty exactly when every row is empty, and it holds exactly the footprint's values |
| TileIndex.MaxOf | decloud/core/tile_io.py:583-585 | `np.amax` of a non-empty array is one of its values, and no value exceeds it |
| TileIndex.MinOf | decloud/core/tile_io.py:599-603 | `np.amin` of a non-empty array is one of its values, and no value is below it |
| TileIndex.ValidityMeaning | decloud/core/tile_io.py:583-585 | `_reject_no_data` fails exactly on an empty footprint; otherwise it gives 0 or 1. It gives 1 exactly when the footprint holds a 0 and no positive value |
| TileIndex.PercentSumBounds | decloud/core/tile_io.py:591-593 | the sum of cloud percentages of n values in [0, PATCHSIZE_REF²] lies in [0, 100·n] |
| TileIndex.CloudBounds | decloud/core/tile_io.py:591-593 | `_average_cloud_coverage_values` is NaN exactly on an empty footprint, and otherwise lies in [0, 100] |
| TileIndex.MeanBounds | decloud/core/tile_io.py:591-593 | a mean of values in [0, 100] lies in [0, 100] |
| TileIndex.Index | decloud/core/tile_io.py:555-581 | `_index` succeeds exactly when `process_fn` succeeds on every footprint; `output[i, x, y]` then holds the processed footprint of cell (x, y) of image i |
| TileIndex.IndexImage | decloud/core/tile_io.py:566-579 | the `compute_value` pass over image idx writes `output[idx, x, y]` for every cell and leaves every other image's plane unchanged |
| TileIndex.KdUpTo | decloud/core/tile_io.py:647-654 | the timestamps and the indices collected for a cell have the same length |
| TileIndex.KeptSound | decloud/core/tile_io.py:647-654 | every index the collecting loop keeps is below the bound, has its flag set, and comes with its own timestamp |
| TileIndex.KeptComplete | decloud/core/tile_io.py:647-654 | every index below the bound whose flag is set is kept |
| TileIndex.S1Keeps | decloud/core/tile_io.py:651-652 | the flag of S1 image j at a cell is set exactly when its validity there is 1 |
| TileIndex.KdUpToKept | decloud/core/tile_io.py:647-654 | `build_kdtree`'s loop keeps exactly the S1 images whose validity flag is set, with their timestamps |
| TileIndex.KdMembers | decloud/core/tile_io.py:640-656 | `build_kdtree` collects exactly the S1 images valid at the cell, each with its own timestamp |
| TileIndex.IndexableCells | decloud/core/tile_io.py:546-688 | every cell of an indexable tile has S2 validities and, with S1 images, a valid S1 image |
| TileIndex.Nearest | decloud/core/tile_io.py:669 | the KDTree query returns an index whose point minimises the absolute time difference |
| TileIndex.ClosestTableEntries | decloud/core/tile_io.py:660-677 | `find_closest_s1_image` holds an entry for S2 image i exactly when the KDTree's nearest point is nearer than `max_distance`, and that entry is the query's result |
| TileIndex.ClosestIsNearest | decloud/core/tile_io.py:619-679 | the closest-S1 entry of an S2 image names an S1 image valid at the cell, at the least distance over all valid S1 images; with no entry, every valid S1 image lies at least `max_distance` away |
| TileIndex.VirtualClosest | decloud/core/tile_io.py:680-688 | without S1 images, every S2 image, and nothing else, has the virtual entry (-1, 0) at every cell |
| TileIndex.VirtualTableEntries | decloud/core/tile_io.py:683-686 | `set_virtual_closest_s1_image` gives exactly the indices below n, each with (-1, 0) |
| TileIndex.Intersection | decloud/core/tile_io.py:505 | the rtree query returns exactly the ids of the inserted boxes that meet the query box |
| TileIndex.IntersectionSorted | decloud/core/tile_io.py:505 | ids inserted in increasing order come out in increasing order |
| TileIndex.TreeEntry | decloud/core/tile_io.py:705-715 | entry i of a cell's tree is S2 image i with the box `build_rtree` gives it |
| TileIndex.GapBounds | decloud/core/tile_io.py:709 | every stored closest-S1 gap lies in [0, `max_distance`] |
| TileIndex.FindS2Exactly | decloud/core/tile_io.py:476-505 | `find_s2` raises exactly for an inverted query. Otherwise it returns, in increasing order, exactly the S2 images whose time, cloud coverage, validity and closest-S1 gap fall in the query (a gap bound of None means `max_distance`) |
| TileIndex.ClosestUpToCells | decloud/core/tile_io.py:660-679 | partway through `for_each_pos`, `closest_s1` holds the table of exactly the visited cells |
| TileIndex.TreesUpToCells | decloud/core/tile_io.py:696-717 | partway through `for_each_pos`, `s2_trees` holds the tree of exactly the visited cells |
| TileIndex.TileHandler.constructor | decloud/core/tile_io.py:632-717 | the closest-S1 tables, then the box trees, leave the handler with every cell's table and tree as specified |
| TileIndex.TileHandler.FindClosestS1 | decloud/core/tile_io.py:660-679 | `for_each_pos(find_closest_s1_image)` leaves every cell's closest-S1 table as specified |
| TileIndex.TileHandler.FillClosestS1 | decloud/core/tile_io.py:660-679 | the loops over the cells store the table of each cell's KDTree |
| TileIndex.TileHandler.SetVirtualClosestS1 | decloud/core/tile_io.py:680-688 | every cell gets the virtual table |
| TileIndex.TileHandler.BuildRTrees | decloud/core/tile_io.py:694-717 | every cell gets its specified tree |
| TileIndex.TileHandler.BuildRTree | decloud/core/tile_io.py:696-715 | `build_rtree` inserts one box per S2 image, holding its timestamp, its cloud coverage, its validity and its closest-S1 gap |
| TileIndex.TileHandler.BoxFromGrids | decloud/core/tile_io.py:702-714 | the values read from the grids and the closest-S1 table form the specified box |
| TileIndex.KdReadyShaped | decloud/core/tile_io.py:655-656 | the KDTrees of an S1 tile cover every cell and hold at least one point each |
| TileIndex.KdTablesAre | decloud/core/tile_io.py:658-679 | the tables built from the tile's own KDTrees are the specified closest-S1 tables |
| TileIndex.KdTablesFrom | decloud/core/tile_io.py:660-679 | cell by cell, the tables built from matching KDTrees are the specified ones |
| TileIndex.KdTableAt | decloud/core/tile_io.py:660-677 | a cell's table built from its KDTree points is its closest-S1 table |
| TileIndex.FindClosestS1Image | decloud/core/tile_io.py:660-677 | the loop over the S2 images builds the closest-S1 table of the cell |
| TileIndex.BuildKdTree | decloud/core/tile_io.py:640-656 | the loop over the S1 images collects the cell's KDTree points |
| TileIndex.KdStep | decloud/core/tile_io.py:650-654 | one more S1 image is appended exactly when its validity flag is set |
| TileIndex.BuildKdTrees | decloud/core/tile_io.py:637-658 | scipy raises exactly when some cell has no valid S1 image; otherwise every cell's points are the valid S1 images |
| TileIndex.Build | decloud/core/tile_io.py:507-717 | `__init__` raises exactly when there is no S2 image, the patch size is 0, a validity footprint is empty or a cell has no valid S1 image. Otherwise the handler's grids, tables and trees are those of the tile |
| TileNames.S1Date | decloud/core/tile_io.py:77-80 | the date text is the first 15 characters of the date field, with the time replaced by "t054500" exactly when it reads "xxxxxx" |
| TileNames.LastSlash | decloud/core/tile_io.py:70 | in `dir + "/" + name`, where name has no "/", `rfind("/")` finds the "/" before the name |
| TileNames.S1NameRoundTrip | decloud/core/tile_io.py:64-85 | an S1 path whose name has seven "_"-separated fields, the sixth of length 15 or more, gives back fields 1, 2 and 3 as tile, polarisation and orbit, with the date of field 5 |
| TileNames.S1Fields | decloud/core/tile_io.py:70-72 | the split of the basename is the name's fields, the first one prefixed with "/" |
| TileNames.S1Basename | decloud/core/tile_io.py:70 | the part of a path from its last "/" on is the fields joined with "_", the first one prefixed with "/" |
| TileNames.S1NeedsSlash | decloud/core/tile_io.py:70-74 | without a "/", `rfind` gives -1, the basename is the last character alone, and the name is refused |
| TileNames.S1Accepted | decloud/core/tile_io.py:70-76 | `s1_filename_to_md` accepts exactly the names whose basename has seven fields and a sixth field of at least 15 characters |
| TileNames.S2Accepted | decloud/core/tile_io.py:139-153 | `s2_filename_to_md` accepts exactly the names whose `pathlib` name has at least three "_" |
| TileNames.S2NameRoundTrip | decloud/core/tile_io.py:139-153 | an S2 product path whose name has four or more fields gives back field 3 as tile and field 1 without its last character as date |
| TileNames.PathNameOf | decloud/core/tile_io.py:145 | the `pathlib` name of `dir + "/" + name` is name, unless name is empty or "." |
| TileNames.SourceKeys | decloud/core/tile_io.py:436-465 | `S1Image.get` gives the timestamp, orbit and band keys. `S2Image.get` gives its timestamp and bands, and has its 20 m bands and cloud mask exactly when the image has them |
| TileNames.ReadWritesKeys | decloud/core/tile_io.py:913-925 | reading one image writes exactly "geoinfo" (for S2) and each source key joined to the slot name with "_" |
| TileNames.SampleKeys | decloud/core/tile_io.py:923-925 | one sample key per source key |
| TileNames.ReadWritesKeyList | decloud/core/tile_io.py:913-925 | the keys written for one image, in order: "geoinfo" first for S2, then the suffixed source keys |
| TileNames.SampleKeysMembers | decloud/core/tile_io.py:923-925 | a key is a sample key exactly when it is some source key suffixed with the slot |
| TileNames.SlotWritesKeys | decloud/core/tile_io.py:912-925 | a slot's writes touch exactly the keys some read of the slot writes |
| TileNames.TupleWritesKeys | decloud/core/tile_io.py:911-925 | the tuple's writes touch exactly the keys some read of some slot writes |
| TileNames.ReadError | decloud/core/tile_io.py:913-921 | a read that raises nothing has a known sensor key |
| TileNames.ReadErrorCases | decloud/core/tile_io.py:913-921 | an S2 read never raises; an S1 read raises AttributeError exactly when the handler has no S1 images; any other sensor key raises "Unknown key" |
| TileNames.SlotError | decloud/core/tile_io.py:912-921 | a slot without an exception has only known sensor keys |
| TileNames.TupleError | decloud/core/tile_io.py:911-921 | a tuple without an exception has only known sensor keys |
| TileNames.SlotErrorNone | decloud/core/tile_io.py:912-921 | a slot raises exactly when one of its images cannot be read |
| TileNames.SlotErrorExtend | decloud/core/tile_io.py:912-921 | once a prefix of a slot raises, later images do not change the exception |
| TileNames.SlotErrorFirst | decloud/core/tile_io.py:912-921 | a slot that raises does so with the exception of its first image that cannot be read |
| TileNames.TupleErrorNone | decloud/core/tile_io.py:911-921 | a tuple raises exactly when one of its slots raises |
| TileNames.TupleErrorExtend | decloud/core/tile_io.py:911-921 | once a prefix of the tuple raises, later slots do not change the exception |
| TileNames.TupleErrorFirst | decloud/core/tile_io.py:911-921 | a tuple that raises does so with the exception of its first slot that raises |
| TileNames.ReadTupleMeaning | decloud/core/tile_io.py:884-931 | `read_tuple` raises exactly when some image cannot be read (an unknown sensor key, or an S1 image on a handler without S1 images), with the exception of the first such image in dict order. Otherwise its keys are "dem" (when there is a DEM) and the keys some read writes, once each, each holding the last value written to it |
| TileNames.VirtualS1Raises | decloud/core/tile_io.py:913-914 | a handler built without an S1 directory raises AttributeError on any tuple naming an S1 image, such as the virtual index -1, while one with S1 images reads it |
| TileNames.S2BandsKey | decloud/core/tile_io.py:922-925 | an S2 image read for slot key puts its 10 m bands under "s2_" + key |
| TileNames.StoreRead | decloud/core/tile_io.py:913-925 | storing one image's patches updates the dict with that image's writes |
| TileNames.StoreSlot | decloud/core/tile_io.py:912-925 | a slot's images are stored in turn; the slot raises exactly when one image cannot be read, with the first such image's exception |
| TileNames.SlotStep | decloud/core/tile_io.py:912-925 | storing one more readable image extends the slot's writes |
| TileNames.SlotFails | decloud/core/tile_io.py:912-921 | the first image that cannot be read decides the slot's exception |
| TileNames.TupleWritesStep | decloud/core/tile_io.py:911-925 | one more slot appends its writes |
| TileNames.ReadTupleDone | decloud/core/tile_io.py:927-931 | once every slot is stored, the sample is complete after the DEM is added |
| TileNames.ReadTuple | decloud/core/tile_io.py:907-931 | the loops of `read_tuple` return the specified sample, or the exception of the first image they cannot read |
| TupleSearch.InsideRoi | decloud/core/tile_io.py:743-749 | without an ROI every cell is inside |
| TupleSearch.RoiAllowsMeaning | decloud/core/tile_io.py:743-749 | `is_inside_roi` raises exactly on an empty footprint. It refuses a cell exactly when the footprint's smallest value is 0, that is when it holds a 0 and nothing below 0 |
| TupleSearch.BinaryRoi | decloud/core/tile_io.py:743-749 | a 0/1 ROI refuses a cell exactly when its footprint holds a 0 |
| TupleSearch.CloudMin | decloud/core/tile_io.py:776-784 | the lower cloud bound is the number given, or the drawn "random..." value capped by the maximum; any other value raises |
| TupleSearch.FilterExactly | decloud/core/tile_io.py:770-802 | `_filter` succeeds exactly when the slot has all it reads and its query is not inverted. It then returns, in increasing order, exactly the valid S2 images in the window around the reference, within the cloud bounds, whose closest-S1 gap is within the slot's gap |
| TupleSearch.Keys | decloud/core/tile_io.py:813 | `acquisition_candidates.keys()` lists the slot names in insertion order |
| TupleSearch.Values | decloud/core/tile_io.py:814 | `acquisition_candidates.values()` lists the candidate lists in insertion order |
| TupleSearch.RemoveFirst | decloud/core/tile_io.py:815 | `list.remove` drops one occurrence of a present value and leaves a list without it unchanged |
| TupleSearch.DedupNeverRemoves | decloud/core/tile_io.py:812-815 | an int is never among the values, which are lists, so the de-duplication never removes anything. It raises only where `is_siblings` raises, and only when the reference is in the list |
| TupleSearch.FilteredSlotsSnoc | decloud/core/tile_io.py:808-822 | storing the next slot's non-empty `_filter` list keeps the round's slots in layout order |
| TupleSearch.RoundFromShape | decloud/core/tile_io.py:808-822 | the rest of a round keeps the slots in layout order, each with its non-empty `_filter` list |
| TupleSearch.RoundMeaning | decloud/core/tile_io.py:804-826 | a round that succeeds is complete exactly when every slot's `_filter` list is non-empty. A complete round holds every slot, in layout order, with its list unchanged |
| TupleSearch.KeepCompleteSticks | decloud/core/tile_io.py:804-826 | an exception in one round is the outcome of `collect` on the cell |
| TupleSearch.KeepCompleteStep | decloud/core/tile_io.py:824-826 | one more round is appended exactly when it is complete; its exception ends the cell |
| TupleSearch.KeepCompleteMeaning | decloud/core/tile_io.py:804-826 | without an exception every round succeeded, and the rounds kept are exactly the complete ones, in order |
| TupleSearch.RoundResults | decloud/core/tile_io.py:804-806 | one round per S2 image, with that image's timestamp as the reference |
| TupleSearch.CellRoundsMeaning | decloud/core/tile_io.py:804-826 | when `collect` succeeds on a cell, its rounds are exactly the complete rounds of its reference images |
| TupleSearch.CellEntry | decloud/core/tile_io.py:767-768 | `collect` adds at most one entry, keyed by its own cell |
| TupleSearch.ScanSticks | decloud/core/tile_io.py:828 | an exception at one cell is the outcome of `for_each_pos` from then on |
| TupleSearch.ScanEntries | decloud/core/tile_io.py:828 | every entry of the dict is for a visited cell, and is what that cell's step added |
| TupleSearch.ListedBefore | decloud/core/tile_io.py:768 | entries added for one cell list no other cell |
| TupleSearch.ScanCovers | decloud/core/tile_io.py:828 | every visited cell's step succeeded, and the cell is listed exactly when its step added an entry |
| TupleSearch.ScanOrdered | decloud/core/tile_io.py:828 | the entries follow `for_each_pos` order, so no cell is listed twice |
| TupleSearch.CollectAtMeaning | decloud/core/tile_io.py:761-826 | `collect` adds a cell with given rounds exactly when the cell is inside the ROI and those are its complete rounds |
| TupleSearch.CollectUpToCells | decloud/core/tile_io.py:759-828 | the candidates grid lists exactly the visited cells inside the ROI, once each and in `for_each_pos` order |
| TupleSearch.SlotPicks | decloud/core/tile_io.py:838-846 | one entry per candidate of the slot, in order |
| TupleSearch.KeyedCandidate | decloud/core/tile_io.py:834-846 | every slot of the round, in order, with its entries |
| TupleSearch.KeyedRounds | decloud/core/tile_io.py:833-850 | every round of a cell, in order, with its entries |
| TupleSearch.PickOfMeaning | decloud/core/tile_io.py:840-845 | an entry holds its S2 image. It holds an "s1" key exactly when the slot has an S1 acquisition and the image has a closest S1 image, and that key is the closest S1 image's index |
| TupleSearch.KeyedGridCovers | decloud/core/tile_io.py:831-850 | every cell with a complete round is in `candidates_grid`, keyed |
| TupleSearch.KeyedGridEntries | decloud/core/tile_io.py:831-850 | `candidates_grid` holds only cells with a complete round, keyed |
| TupleSearch.KeyedGridOrdered | decloud/core/tile_io.py:831-850 | `candidates_grid` keeps the cells' order |
| TupleSearch.Prepend | decloud/core/tile_io.py:877 | every tail with the head in front of it |
| TupleSearch.PrependMembers | decloud/core/tile_io.py:877 | the sequences with a given head are those whose tail is among the tails |
| TupleSearch.ProductWithMembers | decloud/core/tile_io.py:877 | every head with every tail: as many sequences as heads times tails, exactly those with a head among the heads and a tail among the tails |
| TupleSearch.ProductMembers | decloud/core/tile_io.py:877 | `itertools.product` yields as many sequences as the product of the lengths: exactly those that take one element from every list, in order |
| TupleSearch.Zip | decloud/core/tile_io.py:876 | `zip` pairs up to the shorter of the two sequences |
| TupleSearch.EntryLists | decloud/core/tile_io.py:877 | `candidate.values()` gives the slots' entry lists in order |
| TupleSearch.TuplesGrid | decloud/core/tile_io.py:874-877 | `tuples_grid` has every cell of `candidates_grid`, in order, with its tuples |
| TupleSearch.RoundTuplesSound | decloud/core/tile_io.py:876-877 | every tuple of a round names the layout's slots in order, each with one of its entries |
| TupleSearch.RoundTuplesComplete | decloud/core/tile_io.py:876-877 | every choice of one entry per slot, named by the slots in order, is a tuple of the round |
| TupleSearch.ChoiceInProduct | decloud/core/tile_io.py:877 | every choice of one element per list is in the product |
| TupleSearch.RoundTuplesMembers | decloud/core/tile_io.py:876-877 | a round yields one tuple per choice of one entry per slot: as many as the product of the entry counts |
| TupleSearch.SlotPicksMembers | decloud/core/tile_io.py:838-846 | the entries of a slot are exactly those of its candidates |
| TupleSearch.RoundTuplesMeaning | decloud/core/tile_io.py:834-877 | a complete round yields as many tuples as the product of its slots' candidate counts. A tuple belongs to it exactly when it names every slot in order, each with the entry of one of the slot's candidates |
| TupleSearch.CellTuplesMembers | decloud/core/tile_io.py:876-877 | a cell's tuples are exactly the tuples of its rounds |
| TupleSearch.RoundTuplesNonEmpty | decloud/core/tile_io.py:876-877 | a complete round yields at least one tuple |
| TupleSearch.SizePositive | decloud/core/tile_io.py:877 | non-empty lists have a positive product of lengths |
| TupleSearch.RoundTupleOf | decloud/core/tile_io.py:804-877 | the tuples of a complete round name every slot in order, each with the entry of one of the images `_filter` returns for it |
| TupleSearch.RoundSlots | decloud/core/tile_io.py:808-822 | a complete round holds every slot with its `_filter` list |
| TupleSearch.CellHasRounds | decloud/core/tile_io.py:804-826 | a cell keeps some round exactly when the round of some reference image completes |
| TupleSearch.CellTupleSound | decloud/core/tile_io.py:804-877 | every tuple of a cell comes from a round that completes |
| TupleSearch.CellTupleComplete | decloud/core/tile_io.py:804-877 | every tuple of a round that completes is a tuple of the cell |
| TupleSearch.CellTuplesMeaning | decloud/core/tile_io.py:804-877 | a cell's tuples are exactly the tuples of its complete rounds |
| TupleSearch.CellTuplesNonEmpty | decloud/core/tile_io.py:847-877 | a cell with a complete round has at least one tuple |
| TupleSearch.GridEntryTuples | decloud/core/tile_io.py:831-877 | a collected cell with a complete round is a cell with samples, and has those samples' tuples |
| TupleSearch.TupleSearchEntries | decloud/core/tile_io.py:728-882 | every cell `tuple_search` lists has samples, and lists exactly its tuples |
| TupleSearch.TupleSearchEntry | decloud/core/tile_io.py:728-882 | entry k of the search is a cell with samples, with exactly its tuples |
| TupleSearch.CollectedCell | decloud/core/tile_io.py:761-828 | every collected cell lies on the grid and is what `collect` gives there |
| TupleSearch.TupleSearchCovers | decloud/core/tile_io.py:728-882 | every cell with samples is listed by `tuple_search` |
| TupleSearch.GridCellWithRounds | decloud/core/tile_io.py:761-828 | a cell with samples is collected with at least one complete round |
| TupleSearch.TuplesGridHas | decloud/core/tile_io.py:874-877 | every cell of `candidates_grid` is in `tuples_grid` |
| TupleSearch.TupleSearchMeaning | decloud/core/tile_io.py:728-882 | `tuple_search` returns, once each and in `for_each_pos` order, exactly the cells inside the ROI where a round completes. Each has a non-empty list of exactly the tuples that name every slot in order, each with the entry of one of the images `_filter` returns for it in a complete round |
| TupleSearch.RunRound | decloud/core/tile_io.py:805-822 | the loop over the slots computes the specified round |
| TupleSearch.CollectCell | decloud/core/tile_io.py:761-826 | the ROI test and the loop over the S2 images compute the cell's specified entry |
| TupleSearch.ScanStep | decloud/core/tile_io.py:491-494 | one more cell appends its entry, or its exception ends the column |
| TupleSearch.CollectStep | decloud/core/tile_io.py:761-826 | one more cell of `for_each_pos(collect)` |
| TupleSearch.CollectColumn | decloud/core/tile_io.py:492-494 | the inner loop computes the grid up to the end of column x |
| TupleSearch.Collect | decloud/core/tile_io.py:828 | `for_each_pos(collect)` computes the specified candidates grid |
| TupleSearch.KeyCandidate | decloud/core/tile_io.py:834-846 | the loops compute the specified keyed round |
| TupleSearch.KeyGrid | decloud/core/tile_io.py:831-850 | the loops compute the specified `candidates_grid` |
| TupleSearch.TupleSearch | decloud/core/tile_io.py:728-882 | `tuple_search` on a built handler returns the specified result |
| Dataset.Buffer.constructor | decloud/core/dataset.py:46-48 | a new buffer is empty and keeps its maximum length |
| Dataset.Buffer.IsComplete | decloud/core/dataset.py:59-61 | the buffer is complete exactly when it holds `max_length` samples, so a negative maximum is never reached |
| Dataset.Buffer.Add | decloud/core/dataset.py:54-57 | `add` appends the element, then fails its assertion exactly when the buffer was already full |
| Dataset.Range | decloud/core/dataset.py:113-156 | `np.arange(0, n)` holds 0, ..., n-1 in order |
| Dataset.RangeCount | decloud/core/dataset.py:113 | `np.arange(0, n)` holds each id below n exactly once and nothing else |
| Dataset.PermutationVisitsOnce | decloud/core/dataset.py:113-128 | a shuffled id list has length n, holds only ids below n and each of them once, so one epoch visits every tuple once |
| Dataset.FlatPrefix | decloud/core/dataset.py:107-111 | one more part appends its elements and its length |
| Dataset.FlatIndex | decloud/core/dataset.py:107-111 | element k of part i is at position (length of the parts before i) + k of the flattened sequence |
| Dataset.FlatLength | decloud/core/dataset.py:107-111 | the flattened sequence's length is the sum of the parts' lengths |
| Dataset.CellEntries | decloud/core/dataset.py:109-110 | one `(tile_name, tuple_pos, tuple_idx)` per tuple of the cell, in order |
| Dataset.CellParts | decloud/core/dataset.py:108-110 | the entries of each cell of a tile, in order |
| Dataset.TileParts | decloud/core/dataset.py:107-110 | the entries of each tile, in order |
| Dataset.GridCountIsLength | decloud/core/dataset.py:108-111 | the entries of a tile are as many as its tuples |
| Dataset.TupleCountIsLength | decloud/core/dataset.py:107-111 | the entries of all tiles are as many as their tuples |
| Dataset.TupleIds | decloud/core/dataset.py:104-111 | `nb_of_tuples` counts every tuple. Tuple k of cell j of tile i gets as id the number of tuples of the tiles before i, plus those of the cells before j, plus k |
| Dataset.EnumerateGrid | decloud/core/dataset.py:108-111 | the loops over a tile's cells and tuples produce its entries |
| Dataset.EnumerateTuples | decloud/core/dataset.py:104-111 | the three loops build `tuples_map` as specified |
| Dataset.KeptGrid | decloud/core/dataset.py:149-151 | each cell keeps its position and its kept tuples |
| Dataset.KeptGrids | decloud/core/dataset.py:148-151 | each tile keeps its name and its kept cells |
| Dataset.ConstantKeeps | decloud/core/dataset.py:148-154 | `ConstantIterator` keeps min(len, `nbsample_max`) tuples of each cell at the same position, each one of the cell's tuples. With more than `nbsample_max` tuples, the kept ones are those `random.sample` picked |
| Dataset.TupleIterator.Random | decloud/core/dataset.py:99-115 | `RandomIterator` maps every tuple of every tile to its id, counts them, and starts at 0 over the shuffled ids |
| Dataset.TupleIterator.Constant | decloud/core/dataset.py:140-158 | `ConstantIterator` does the same over the kept tuples of each cell |
| Dataset.TupleIterator.Next | decloud/core/dataset.py:117-171 | `__next__` returns the entry under the cursor and moves the cursor on. After the last id it returns to 0 over a reshuffled list. With no tuples it raises IndexError |
| Dataset.UpdateSticks | decloud/core/dataset.py:174-181 | once an item fails, `update` fails with that error |
| Dataset.UpdateMap | decloud/core/dataset.py:174-181 | the loop over the items computes `update` as specified |
| Dataset.UpdateLeaf | decloud/core/dataset.py:176-180 | writing items into a non-mapping fails exactly when there is something to write |
| Dataset.UpdateMerges | decloud/core/dataset.py:174-181 | `update` merges key by key: unwritten keys keep their values, a non-mapping value is stored as is, and a mapping is merged recursively into the old value (an empty mapping when the key is absent) |
| Dataset.MergeStep | decloud/core/dataset.py:176-180 | one more item keeps the merge property |
| Dataset.WrittenAtSame | decloud/core/dataset.py:176-180 | whether an item was written depends only on the value at its key |
| Dataset.LastSeason | decloud/core/dataset.py:204-207 | the loop keeps the last of the seasons scanned that holds the month, or none |
| Dataset.SeasonsPartition | decloud/core/dataset.py:192-207 | a month has a season exactly when it is in 1..12, and that season is the only one holding it |
| Dataset.FindSeason | decloud/core/dataset.py:204-207 | the loop over the seasons finds the month's season |
| Dataset.EntrySeason | decloud/core/dataset.py:204-211 | an entry's season is one of the four |
| Dataset.NoSeasons | decloud/core/dataset.py:194-200 | four empty seasons and no key |
| Dataset.Bucketed | decloud/core/dataset.py:201-216 | bucketing gives four buckets |
| Dataset.EmptyParts | decloud/core/dataset.py:194-197 | empty buckets hold nothing |
| Dataset.TotalLengthAdd | decloud/core/dataset.py:213-216 | one more entry in a bucket adds one to the total |
| Dataset.BucketedFails | decloud/core/dataset.py:204-211 | the assertion fails exactly when some entry's month has no season |
| Dataset.BucketedSizes | decloud/core/dataset.py:199-218 | the buckets' sizes sum to the number of tuples, and `keys` lists each season that received entries once |
| Dataset.BucketedSeasons | decloud/core/dataset.py:201-216 | each season's bucket holds exactly that season's entries, in order |
| Dataset.BucketTree | decloud/core/dataset.py:213-215 | a bucket as the nested dict numbers its entries 0, 1, ... |
| Dataset.SeasonsTree | decloud/core/dataset.py:213-218 | the seasons as the nested dict, in key order |
| Dataset.BucketUpdate | decloud/core/dataset.py:213-215 | `update` with `{number: entry}` appends the entry to the bucket |
| Dataset.AddKeepsKeys | decloud/core/dataset.py:213-218 | adding an entry keeps each listed season listed once |
| Dataset.SeasonsGet | decloud/core/dataset.py:178 | `tuple_map.get(b, {})` is season b's bucket |
| Dataset.SeasonsPut | decloud/core/dataset.py:178 | storing season b's grown bucket gives the seasons with the entry added |
| Dataset.SeasonsPutListed | decloud/core/dataset.py:178 | for a season already listed, its value is replaced in place |
| Dataset.SeasonsPutNew | decloud/core/dataset.py:178 | for a season not yet listed, it is appended last |
| Dataset.SeasonsUpdate | decloud/core/dataset.py:174-215 | `update(tuples_map, {b: {number: entry}})` appends the entry to season b, listing b last if it was not listed yet |
| Dataset.BucketEntries | decloud/core/dataset.py:201-216 | the loop over the entries buckets them as specified |
| Dataset.BucketedSticks | decloud/core/dataset.py:209-211 | once an entry has no season, the whole bucketing fails with that error |
| Dataset.SeasonIterator.constructor | decloud/core/dataset.py:194-226 | the iterator holds the buckets, the keys, one shuffled order per season and zero counts |
| Dataset.SeasonIterator.Next | decloud/core/dataset.py:236-253 | `__next__` returns the entry under the chosen season's cursor and advances that cursor alone. After the season's last entry it returns to 0 over reshuffled numbers. With no season the draw raises |
| Dataset.Oversampling | decloud/core/dataset.py:184-226 | `OversamplingIterator` fails exactly when bucketing fails. Otherwise it holds the seasons' buckets and keys and counts every tuple |
| Dataset.Limited | decloud/core/dataset.py:256-262 | `LimitedIterator` is the oversampling iterator reporting `nb_samples` tuples |
| Dataset.DatasetSize | decloud/core/dataset.py:292-293 | the size is the tuple count, capped by a non-zero maximum when one is given |
| Dataset.Window | decloud/core/dataset.py:371-375 | the samples read from a given position, in order |
| Dataset.WindowGrows | decloud/core/dataset.py:371-375 | one more sample extends the window |
| Dataset.Dataset.constructor | decloud/core/dataset.py:274-322 | the size is set, the miner is filled and dumped into the consumer, and the miner is filled again |
| Dataset.Dataset.Collect | decloud/core/dataset.py:365-378 | `_collect` fills the miner with the next `buffer_length` samples |
| Dataset.Dataset.Dump | decloud/core/dataset.py:347-363 | `_dump` copies the miner into the consumer, then empties and refills the miner |
| Dataset.Dataset.ReadOneSample | decloud/core/dataset.py:332-345 | `read_one_sample` returns the next sample of the stream, in order; the cursor's last step triggers a dump |
| Dataset.Dataset.Generate | decloud/core/dataset.py:388-393 | `_generator` yields `size` samples: the stream's next samples, in order |
| PreProcessor.Stamps | app/otbDecloudTimeSeriesPreProcessor.cxx:329-338 | entry i of the list has timestamp i and index i |
| PreProcessor.StampsIndexed | app/otbDecloudTimeSeriesPreProcessor.cxx:333-336 | every stamp of the list is the timestamp at its own index |
| PreProcessor.GetTimestampsWithIndices | app/otbDecloudTimeSeriesPreProcessor.cxx:324-341 | a new vector holding each timestamp with its position in the parameter list |
| PreProcessor.SwapDown | app/otbDecloudTimeSeriesPreProcessor.cxx:353-371 | swapping an element with a greater predecessor moves the insertion one step down and keeps the elements |
| PreProcessor.SwapMultiset | app/otbDecloudTimeSeriesPreProcessor.cxx:353-371 | a swap keeps the elements |
| PreProcessor.InsertDone | app/otbDecloudTimeSeriesPreProcessor.cxx:353-371 | once the inserted element is not below its predecessor, the prefix is sorted |
| PreProcessor.Insert | app/otbDecloudTimeSeriesPreProcessor.cxx:353-371 | one insertion step extends the sorted prefix by one element and keeps the vector's elements |
| PreProcessor.SortStamps | app/otbDecloudTimeSeriesPreProcessor.cxx:353-371 | `std::sort` leaves the vector a permutation of itself, ordered by the mode's comparator |
| PreProcessor.SortTimestampsWithIndices | app/otbDecloudTimeSeriesPreProcessor.cxx:345-375 | ascending, descending, or by distance to the reference: the vector is a permutation of itself in that order |
| PreProcessor.PermutationStamped | app/otbDecloudTimeSeriesPreProcessor.cxx:394 | a reordered list holds only stamps of the original list |
| PreProcessor.StampsOnce | app/otbDecloudTimeSeriesPreProcessor.cxx:329-338 | each stamp occurs at most once in the list |
| PreProcessor.TwiceCounted | app/otbDecloudTimeSeriesPreProcessor.cxx:394 | an element found at two positions is counted at least twice |
| PreProcessor.PermutationDistinct | app/otbDecloudTimeSeriesPreProcessor.cxx:394 | a reordered list never holds two stamps with the same index |
| PreProcessor.GroupPairsPrefix | app/otbDecloudTimeSeriesPreProcessor.cxx:416-418 | one more SAR image adds its pair exactly when it is within `maxgap` |
| PreProcessor.GroupOpt | app/otbDecloudTimeSeriesPreProcessor.cxx:416-418 | every pair of a group names the group's optical image |
| PreProcessor.GroupBounded | app/otbDecloudTimeSeriesPreProcessor.cxx:416-418 | the pairs of a group keep any bound on the SAR images' distance to the optical image |
| PreProcessor.GroupSound | app/otbDecloudTimeSeriesPreProcessor.cxx:416-418 | every pair of a group names a SAR image of the list within `maxgap` |
| PreProcessor.GroupComplete | app/otbDecloudTimeSeriesPreProcessor.cxx:416-418 | every SAR image within `maxgap` gives a pair |
| PreProcessor.GroupOrdered | app/otbDecloudTimeSeriesPreProcessor.cxx:408-418 | a group's pairs come by non-decreasing distance to the optical image |
| PreProcessor.CandidatesSound | app/otbDecloudTimeSeriesPreProcessor.cxx:398-419 | every candidate pair names a SAR image and an optical image of the lists at most `maxgap` apart |
| PreProcessor.CandidatesHaveGroup | app/otbDecloudTimeSeriesPreProcessor.cxx:398-419 | every pair of each optical image's group is a candidate |
| PreProcessor.CandidatesBounded | app/otbDecloudTimeSeriesPreProcessor.cxx:398-419 | the candidates' optical images keep any bound on the sorting key |
| PreProcessor.CandidatesAvoid | app/otbDecloudTimeSeriesPreProcessor.cxx:398-419 | no candidate names an optical index outside the optical order |
| PreProcessor.CandidatesOrdered | app/otbDecloudTimeSeriesPreProcessor.cxx:394-419 | the candidates come in the sorting order of their optical images |
| PreProcessor.CandidatesGrouped | app/otbDecloudTimeSeriesPreProcessor.cxx:406-419 | two candidates of the same optical image come by non-decreasing SAR distance |
| PreProcessor.CandidatesExact | app/otbDecloudTimeSeriesPreProcessor.cxx:380-434 | however the sorts order ties, the candidates are exactly the SAR/optical pairs at most `maxgap` apart. They come grouped by optical image in the sorting order, and by non-decreasing gap within a group |
| PreProcessor.CandidatesPairsExactly | app/otbDecloudTimeSeriesPreProcessor.cxx:394-432 | the candidates are the promised pairs, and no candidate means no SAR/optical pair is within `maxgap` |
| PreProcessor.GroupStep | app/otbDecloudTimeSeriesPreProcessor.cxx:398-419 | one more optical image, with the SAR list sorted for it, appends its group |
| PreProcessor.PushGroup | app/otbDecloudTimeSeriesPreProcessor.cxx:416-418 | the inner loop appends the optical image's group |
| PreProcessor.GetCandidatesPairs | app/otbDecloudTimeSeriesPreProcessor.cxx:380-434 | the result is exactly the SAR/optical pairs at most `maxgap` apart. They are grouped by optical image in the sorting order, and by non-decreasing gap within a group. When no pair is that close, the "no pairs" error is fatal |
| PreProcessor.NatToStringValue | app/otbDecloudTimeSeriesPreProcessor.cxx:523-524 | a count is printed as decimal digits without a leading zero that read back as the count |
| PreProcessor.CheckNumbers | app/otbDecloudTimeSeriesPreProcessor.cxx:516-530 | the check fails exactly when the image and timestamp counts differ; the failure message contains both keys and both counts in decimal |
| ImageStacks.IndexOf | app/otbDecloudTimeSeriesPreProcessor.cxx:470-482 | the first position of a present value |
| ImageStacks.Find | app/otbDecloudTimeSeriesPreProcessor.cxx:470-487 | `std::find` returns the first position of the value, or the end when it is absent |
| ImageStacks.Renumber | app/otbDecloudTimeSeriesPreProcessor.cxx:463-505 | one new index per pair |
| ImageStacks.RenumberPrefix | app/otbDecloudTimeSeriesPreProcessor.cxx:463-505 | one more pair extends the renumbering by one step |
| ImageStacks.RenumberPoints | app/otbDecloudTimeSeriesPreProcessor.cxx:463-505 | every new index points, in the stack, to the pair's old index |
| ImageStacks.RenumberStack | app/otbDecloudTimeSeriesPreProcessor.cxx:469-478 | the stack holds only old indices the pairs use, each once |
| ImageStacks.RenumberSeen | app/otbDecloudTimeSeriesPreProcessor.cxx:469-478 | an old index is stacked exactly when some pair uses it |
| ImageStacks.RenumberDense | app/otbDecloudTimeSeriesPreProcessor.cxx:476-493 | every position of the stack is some pair's new index |
| ImageStacks.RenumberFirst | app/otbDecloudTimeSeriesPreProcessor.cxx:471-477 | the first pair to use an old index gets a new index above those of all earlier pairs |
| ImageStacks.RenumberSame | app/otbDecloudTimeSeriesPreProcessor.cxx:463-505 | two pairs get the same new index exactly when they had the same old index |
| ImageStacks.Firsts | app/otbDecloudTimeSeriesPreProcessor.cxx:466 | the SAR index of each pair |
| ImageStacks.Seconds | app/otbDecloudTimeSeriesPreProcessor.cxx:467 | the optical index of each pair |
| ImageStacks.Gather | app/otbDecloudTimeSeriesPreProcessor.cxx:475-491 | the images at the given old indices, in order |
| ImageStacks.Reindex | app/otbDecloudTimeSeriesPreProcessor.cxx:469-483 | one renumbering step keeps the stack equal to the images at the stacked old indices |
| ImageStacks.InstantiateSources | app/otbDecloudTimeSeriesPreProcessor.cxx:443-510 | the output pairs are the renumbered pairs, and each stack holds the images at its stacked old indices |
| PixelFunctor.Block | app/otbDecloudTimeSeriesPreProcessor.cxx:115-130 | the pixel of one image has `nbBands` bands |
| PixelFunctor.UsableLengths | app/otbDecloudTimeSeriesPreProcessor.cxx:182-199 | every usable block has the bands of one SAR image and one optical image |
| PixelFunctor.UsablePrefix | app/otbDecloudTimeSeriesPreProcessor.cxx:176-201 | the blocks of the first pairs come first among the blocks of all pairs |
| PixelFunctor.UsableStep | app/otbDecloudTimeSeriesPreProcessor.cxx:176-201 | one more pair adds its SAR and optical pixels exactly when neither is all no-data |
| PixelFunctor.PairStep | app/otbDecloudTimeSeriesPreProcessor.cxx:176-201 | one iteration of the pair loop, as a step of the usable blocks |
| PixelFunctor.FlattenAppend | app/otbDecloudTimeSeriesPreProcessor.cxx:188-197 | blocks laid end to end concatenate |
| PixelFunctor.FlattenBlock | app/otbDecloudTimeSeriesPreProcessor.cxx:157-197 | block k of equal-width blocks occupies bands [k·width, k·width + width) |
| PixelFunctor.Repeat | app/otbDecloudTimeSeriesPreProcessor.cxx:157-169 | k copies of the block |
| PixelFunctor.RepeatMore | app/otbDecloudTimeSeriesPreProcessor.cxx:157-169 | one more copy of the block, at either end |
| PixelFunctor.NoDataBlock | app/otbDecloudTimeSeriesPreProcessor.cxx:159-168 | a no-data block has the SAR bands and then the optical bands |
| PixelFunctor.OutputBlocks | app/otbDecloudTimeSeriesPreProcessor.cxx:149-205 | the output pixel has `m_NbOutputImages` blocks of SAR+optical bands. Block k holds the SAR and optical pixels of the k-th pair (in list order) where neither is all no-data, and the no-data block when there are fewer such pairs |
| PixelFunctor.PaddedBlocks | app/otbDecloudTimeSeriesPreProcessor.cxx:157-201 | padding gives n blocks of the width, the usable ones first |
| PixelFunctor.OutputIsPadded | app/otbDecloudTimeSeriesPreProcessor.cxx:149-205 | the output pixel is the usable blocks padded with no-data blocks |
| PixelFunctor.OverwriteTwice | app/otbDecloudTimeSeriesPreProcessor.cxx:188-197 | writing the SAR bands and then the optical bands over a block replaces it by their concatenation |
| PixelFunctor.PixelFunction.constructor | app/otbDecloudTimeSeriesPreProcessor.cxx:75 | a functor with no pairs and no bands |
| PixelFunctor.PixelFunction.SetParameters | app/otbDecloudTimeSeriesPreProcessor.cxx:96-110 | `SetParameters` stores the pairs, band counts, no-data values and output count |
| PixelFunctor.PixelFunction.OutputSize | app/otbDecloudTimeSeriesPreProcessor.cxx:88-93 | the output pixel has one SAR and one optical image's bands per output image |
| PixelFunctor.PixelFunction.GetPixel | app/otbDecloudTimeSeriesPreProcessor.cxx:115-130 | `GetPixel` copies bands [idx·nbBands, idx·nbBands + nbBands) |
| PixelFunctor.PixelFunction.IsNoData | app/otbDecloudTimeSeriesPreProcessor.cxx:135-142 | `IsNoData` holds exactly when every band equals the no-data value |
| PixelFunctor.PixelFunction.CopyInto | app/otbDecloudTimeSeriesPreProcessor.cxx:188-197 | a band-copying loop overwrites the bands from `start` with the block |
| PixelFunctor.PixelFunction.WriteTwo | app/otbDecloudTimeSeriesPreProcessor.cxx:188-197 | the SAR and optical loops replace the next block by the two pixels |
| PixelFunctor.PixelFunction.NoDataPixel | app/otbDecloudTimeSeriesPreProcessor.cxx:153-169 | the first loop gives `m_NbOutputImages` no-data blocks |
| PixelFunctor.PixelFunction.FillNoData | app/otbDecloudTimeSeriesPreProcessor.cxx:157-169 | the first loop over n blocks writes n copies of the no-data block |
| PixelFunctor.PixelFunction.PlaceNoData | app/otbDecloudTimeSeriesPreProcessor.cxx:159-168 | one iteration of the first loop writes one no-data block |
| PixelFunctor.PixelFunction.PlaceBlock | app/otbDecloudTimeSeriesPreProcessor.cxx:186-199 | a usable pair's pixels take the place of the next no-data block |
| PixelFunctor.PixelFunction.Apply | app/otbDecloudTimeSeriesPreProcessor.cxx:149-205 | `operator()` returns the output pixel: `OutputSize` bands, as `OutputBlocks` describes |
| PixelFunctor.PixelFunction.FillPairs | app/otbDecloudTimeSeriesPreProcessor.cxx:171-201 | the pair loop, stopping after `m_NbOutputImages` usable pairs, leaves the output pixel |
| PixelFunctor.ApplyDone | app/otbDecloudTimeSeriesPreProcessor.cxx:176 | when the pair loop stops (no pair left, or enough outputs), the pixel is the output pixel |
| PixelFunctor.FlattenSnoc | app/otbDecloudTimeSeriesPreProcessor.cxx:188-197 | one more block is appended after the laid blocks |
| PixelFunctor.OutputLength | app/otbDecloudTimeSeriesPreProcessor.cxx:155 | the output pixel has `m_NbOutputImages` · (SAR bands + optical bands) bands |
| PixelFunctor.FlattenBlockCount | app/otbDecloudTimeSeriesPreProcessor.cxx:155-169 | blocks of equal width take count · width bands |
| PixelFunctor.NbOutputs | app/otbDecloudTimeSeriesPreProcessor.cxx:303 | the number of outputs is the environment's value, and at least 1 |
| PixelFunctor.SlicerRanges | app/otbDecloudTimeSeriesPreProcessor.cxx:566-589 | for output i, the SAR slicer takes channels i·w+1 .. i·w+sarB and the optical slicer the next optB channels |
| PixelFunctor.SlicerBlocks | app/otbDecloudTimeSeriesPreProcessor.cxx:569-589 | the slicers of output k split block k of the output pixel into its SAR bands and its optical bands |
| NClosest.CandidatesMeaning | decloud/production/crga_timeseries_processor.py:49-57 | a product is a candidate exactly when the period keeps its date (strictly before, strictly after, or any date otherwise), and it carries its time difference. The difference is never negative, and is positive for 'before' and 'after' |
| NClosest.WithDeltaAppend | decloud/production/crga_timeseries_processor.py:60 | the items with a given difference in a concatenation are those of each part, in order |
| NClosest.WithDeltaAbove | decloud/production/crga_timeseries_processor.py:60 | a sorted list starting above d has no item with difference d |
| NClosest.InsertByDelta | decloud/production/crga_timeseries_processor.py:60 | inserting adds exactly one item |
| NClosest.InsertByDeltaCount | decloud/production/crga_timeseries_processor.py:60 | inserting adds exactly the item |
| NClosest.InsertByDeltaSorted | decloud/production/crga_timeseries_processor.py:60 | inserting into a sorted list keeps it sorted |
| NClosest.InsertByDeltaStable | decloud/production/crga_timeseries_processor.py:60 | the inserted item goes after the items of equal difference |
| NClosest.SortByDelta | decloud/production/crga_timeseries_processor.py:60 | the sort keeps the length |
| NClosest.SortByDeltaFacts | decloud/production/crga_timeseries_processor.py:60 | the sort is a permutation, non-decreasing in time difference, and keeps items of equal difference in dict order |
| NClosest.NClosestMeaning | decloud/production/crga_timeseries_processor.py:38-62 | `get_nclosest` returns min(n, number of candidates) product keys, none for n ≤ 0. They are the first candidates in stable time-difference order, so no candidate left out is closer than one selected, and each is a key of the products |
| NClosest.CandidateKeys | decloud/production/crga_timeseries_processor.py:49-57 | every candidate is named by a key of the products |
| TfRecords.FloorDivMeaning | decloud/models/tfrecord.py:76-77 | Python's `//` and `%` split a number into quotient times divisor plus a remainder that lies between 0 and the divisor, on the divisor's side |
| TfRecords.NbShardsMeaning | decloud/models/tfrecord.py:76-78 | the shard count fails only for a zero shard size. With a positive size, dropping the remainder gives the most full shards that fit, and keeping it gives the fewest shards that hold every sample. A negative size gives no shard |
| TfRecords.NbShardsNegative | decloud/models/tfrecord.py:76-78 | a negative number of samples per shard gives no shard to write |
| TfRecords.WrittenFull | decloud/models/tfrecord.py:95-100 | every shard the loop writes before the count runs out is full: the first k shards take k·n samples, and each shard holds between 1 and n samples |
| TfRecords.WrittenTotal | decloud/models/tfrecord.py:76-100 | all shards together take every sample when the remainder is kept, and the largest multiple of n when it is dropped |
| TfRecords.Ring | decloud/models/tfrecord.py:121-128 | a sample's polygon is a closed ring of five longitude/latitude positions, starting at the upper-left corner and passing the lower-right one. Each edge runs along a meridian or a parallel, and every vertex is a corner of the box |
| TfRecords.WriteShard | decloud/models/tfrecord.py:111-128 | the inner loop gives one feature per sample read, numbered from 0 in the shard, each carrying the ring of that sample's box |
| TfRecords.Ds2TfRecord | decloud/models/tfrecord.py:66-130 | `ds2tfrecord` fails exactly for a zero shard size. Otherwise it writes the computed number of shards (none if negative), and shard i holds the features of its share of samples, read from where the previous shards stopped |
| TfRecords.ShardFeatures | decloud/models/tfrecord.py:111-128 | a shard's features are as many as the samples it reads |
| TfRecords.ShardedSnoc | decloud/models/tfrecord.py:95-130 | appending the next shard, when it holds its own share of samples, keeps every shard holding its share |
| TfRecords.WithBatch | decloud/models/tfrecord.py:160 | a saved shape is the dataset's shape with one more dimension, a leading `None` |
| TfRecords.ConvertOutputShapes | decloud/models/tfrecord.py:152-162 | `convert_dataset_output_shapes` keeps the keys and their order, and gives each shape its batch dimension |
| TfRecords.SplitTargetsMeaning | decloud/models/tfrecord.py:179-180 | the parsed items split into inputs, whose keys are not target keys, and targets, whose keys are. Together the two hold every parsed item exactly once |
| TfRecords.TrimToWorkersMeaning | decloud/models/tfrecord.py:219-223 | with n workers, the kept record files are the longest prefix whose length is a multiple of n, and reading fails exactly when there are fewer files than workers. Zero workers always fail. A negative count keeps every file and fails only when there is none |

## Left out

- TileNames.ReadTuple: an image index is carried into the sample as given. Resolving it against the handler's image lists is not modelled: Python's negative indexing, where -1 names the last image, and an IndexError past the end.
- Raster, GDAL and OTB I/O: reading images, computing patch statistics, the tile and ROI loaders. The model takes their results as arguments: timestamps and 2-D integer statistics arrays.
- File system access: directory walks and completion-marker files are given as a list of paths or a set of existing files. The JSON and GeoJSON files written by `ds2tfrecord` and `save` are not modelled.
- Date parsing (`datetime.strptime`, time zones): S1 and S2 names yield the date text, and timestamps are given as whole seconds.
- Randomness (`np.random.shuffle`, `random.sample`, `np.random.randint`): the caller supplies the permutation, sample or choice. The `eval` of a "random..." minimum cloud percentage is not modelled; the value is taken as given.
- `rtree` and `scipy.spatial.KDTree` internals: they are specified by their query contracts. A box query returns the S2 indices whose boxes intersect, in ascending index order; the order rtree really uses is library-defined. The nearest S1 image is the first one at minimal time distance; KDTree's tie-breaking is not modelled.
- Threads, locks, `KeyboardInterrupt` handling and timing in `Dataset`: the miner is a synchronous fill pulling samples from a stream given as a function of the sample number.
- Dataset.Dataset.constructor: requires a non-negative `buffer_length`; the behaviour of Python's list operations with a negative length is not modelled.
- Float32 arithmetic in the C++ application: timestamps and pixel values are exact integers or reals, so precision loss near 1.6e9 seconds is not captured.
- `std::sort` in the C++ application sorts with an unspecified order among equal keys. The model sorts stably.
- PixelFunctor.PixelFunction.constructor: the C++ default constructor leaves its numeric fields uninitialised, while the model sets them to zero.
- PixelFunctor.PixelFunction.Apply: requires every pair to index inside the stacked pixels; the C++ code does not check this and would read out of range.
- ImageStacks.InstantiateSources: requires pair indices within the image lists; the C++ code would index out of range.
- The logging loop of `GetCandidatesPairs` and all other logging, the `tqdm` progress bar and the `summarize` printout: they have no effect on results. The logging loop indexes the sorted SAR list by an original index, which does not affect the pairs.
- AcquisitionFactory.GetAcquisition: an "acquisition" value that is a non-empty list is modelled as raising `TypeError`. Python only gets further when the list's integer or boolean elements index into mapping elements of the same list; that case is not modelled.
- TensorFlow serialisation in `ds2tfrecord` and `parse_tfrecord` (`serialize_tensor`, `parse_single_example`, `parse_tensor`), dataset options, shuffling and batching in `read`, and `normalize`: these are framework calls. The model keeps the shard plan, the polygons and the key split.
- Model definitions, training, metrics, normalisation, and the other production pipelines: these are floating-point tensor code and pyotb wiring.
- SensingLayout.AcquisitionsLayout.NewAcquisition: hours of the same non-numeric type, such as two strings or two comparable lists, are accepted by Python, which stores `min(...) * 3600` and `max(...) * 3600` (repetitions of the string or list). The model raises TypeError for them, because it keeps windows as numbers.
- SensingLayout.AddedOkIff: states success only for numeric hours; the Python success on same-type strings or lists is not modelled, as above.
- SensingLayout.WindowFrom: succeeds only for numeric hours, so the same-type string or list hours that Python stores raise TypeError here, as above.
- SensingLayout.FillEntry: its specified outcome is TypeError for same-type string or list hours that Python stores, as above.
- SensingLayout.WriteWindow: raises TypeError for same-type string or list hours that Python stores, as above.
- AcquisitionFactory.GetAcquisition: a layout file whose hours are same-type strings or lists fails in the model with TypeError, while Python builds the layout, as above.
- System.GetFiles: the suffix test lower-cases ASCII letters only. Python's `str.lower` is Unicode, so paths whose extension differs only in the case of non-ASCII letters are dropped by the model and kept by Python.
- TfRecords.Ds2TfRecord: takes a non-negative dataset size. A negative `max_nb_of_samples` gives a negative `Dataset.size`, for which Python computes a non-positive shard count or, with a negative shard size, empty shards; that case is not modelled.
