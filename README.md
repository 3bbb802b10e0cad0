# CarService: an append-only record store over three logs

This project models `CarService` from `src/bibip_car_service.py`. It is a
small dealership store kept in one directory:

- three JSON-lines logs: `models.txt`, `cars.txt` and `sales.txt`;
- for each log, an index file of `key:offset` lines (`models_index.txt`,
  `cars_index.txt`, `sales_index.txt`).

Records are appended to a log, and their offsets are recorded in the index.
A record is read by seeking to its indexed offset. A record is updated by
seeking there in `r+` mode and writing the new line over the old bytes.

The model has three layers.

- **Values and file formats.**
  - `Records`: the three record kinds and a line codec that stands in for
    JSON.
  - `Text`: `strip()` and `int()`/`str()` of integers.
  - `RecordLog`: lines of a file, read at an offset, overwrite at an offset,
    and the forward scan for the first line a test accepts.
  - `Dicts`: Python's insertion-ordered dict.
  - `OffsetIndex`: the index file parser and writer.
  - `Collect`: the three loop shapes the service uses over lines and entries.
  - `Ranking`: counting per model and the stable descending sort.
- **`Ledger`.** Each operation is a function from the directory's files
  (`FileSystem`, a map from file name to contents) to its outcome and the
  files it leaves behind. Writes come in the order the service makes them,
  so an operation that raises part-way keeps the writes it already made.
  For example, `revert_sale` rewrites the sales index before it finds that
  the car is missing.
- **`Service.CarService`.** A class whose `disk` field holds the files. Its
  methods follow the Python methods step by step: the loops over lines and
  index entries, the scan of `revert_sale`, the counting loop of
  `top_models_by_sales`. Each method is proved to leave exactly the outcome
  and the files that its `Ledger` function describes.
- **`ReadFacts` and `WriteFacts`.** Lemmas stating, on the `Ledger`
  functions, what each operation promises and which files it leaves alone.
- **`ReadAfterWrite`.** Lemmas composing the operations: what
  `get_car_info` reports after `sell_car`, `update_vin` and `revert_sale`.

## The in-place rewrite

`sell_car`, `update_vin` and `revert_sale` rewrite a record by writing its
new line over the old one. Nothing is inserted.

- `RecordLog.Overwrite` models this as a byte splice. It keeps the file's
  length unless the write runs past the end.
- A new line no longer than the old one keeps every other line
  (`RecordLog.OverwriteFitsKeepsLines`). Selling always fits, because
  `sold` is the shortest status name (`Records.SoldIsNotLonger`,
  `WriteFacts.SellCarKeepsOtherCars`). The tail of the longer old line stays
  behind as a line that does not decode, and every read skips it.
- A longer line runs into whatever follows it.
  - `revert_sale` writes the car back as `available`, five characters
    longer than `sold` (`Records.StatusChangeLength`).
  - For a car that `add_car` wrote as available and `sell_car` then sold,
    nothing is lost. The shorter `sold` line left the tail of the old line
    in place, and the revert puts the original text back exactly
    (`RecordLog.OverwriteUndone`, `WriteFacts.SellThenRevertLine`).
  - When the line holds exactly a sold car's encoding and another line
    follows, that next line no longer begins at its offset
    (`WriteFacts.RevertSaleInPlace`). For a car that `add_car` wrote as
    sold, that next line is the next record, and it is lost to every read
    at its offset. A car sold from `reserved` leaves a four-character tail,
    so its revert runs one character into the next record.
  - `update_vin` with a longer VIN has the same hazard twice: on the car's
    line (`WriteFacts.UpdateVinInPlace`) and, for a sold car, on its sale
    line (`WriteFacts.UpdateVinSalesInPlace`).
- The preservation lemmas for `revert_sale` and `update_vin` therefore take
  "the new line fits in the old one" as an explicit hypothesis.

## Model

| member | source | states |
|---|---|---|
| Service.CarService.constructor | src/bibip_car_service.py:8-9 | The service keeps its root directory path and starts from the given files. |
| Service.CarService.AppendToFile | src/bibip_car_service.py:13-18 | Returns the log's length before the write (a missing log counts as empty). The log grows by exactly the data and a newline. |
| Service.CarService.UpdateIndex | src/bibip_car_service.py:21-24 | The index file gains exactly one `key:position` line at its end. |
| Service.CarService.ReadIndexToDict | src/bibip_car_service.py:27-40 | Its loop over the lines builds exactly `LoadIndex`. A missing file gives `{}`, lines without `:` are skipped, the last line for a key wins, and an unparsable offset raises. |
| Service.CarService.WriteIndex | src/bibip_car_service.py:43-47 | Its loop replaces the index file by one `key:offset` line per entry, in dict order. |
| Service.CarService.RewriteRecord | src/bibip_car_service.py:114-115 | The log is overwritten from the offset by the new line, with nothing inserted. |
| Service.CarService.ReadAllModels | src/bibip_car_service.py:50-63 | Its loop gives `Ledger.ReadAllModels`: each decodable line sets the entry for its model id. |
| Service.CarService.ReadAllCars | src/bibip_car_service.py:66-79 | Its loop gives `Ledger.ReadAllCars`: each decodable line sets the entry for its VIN. |
| Service.CarService.AddModel | src/bibip_car_service.py:82-86 | Returns the model. The files end up as `Ledger.AddModel` says: the record is appended and `str(id)` is indexed at its offset. |
| Service.CarService.AddCar | src/bibip_car_service.py:89-93 | Returns the car. The record is appended and the VIN is indexed at its offset. |
| Service.CarService.SellCar | src/bibip_car_service.py:96-125 | Outcome and files are those of `Ledger.SellCar`. The writes come in source order: car rewrite, sale append, sales index rewrite. |
| Service.CarService.GetCars | src/bibip_car_service.py:127-141 | Its loop returns the cars of the decodable lines with the given status, in file order. |
| Service.CarService.GetCarInfo | src/bibip_car_service.py:144-188 | Equals `Ledger.GetCarInfo`: car, then model, then optional sale, with the same `None` exits and raises. |
| Service.CarService.JoinModel | src/bibip_car_service.py:152-188 | The model lookup and sale join once the car is read; equals `Ledger.JoinModel`. |
| Service.CarService.UpdateVin | src/bibip_car_service.py:190-224 | Outcome and files are those of `Ledger.UpdateVin`, with the checks and writes in source order. |
| Service.CarService.FindSale | src/bibip_car_service.py:230-243 | The `while line:` scan returns the first line holding a sale with the number, with its offset. |
| Service.ScanLines | src/bibip_car_service.py:230-243 | The scan loop finds exactly `FirstPicked`: the first line the test accepts, and where it starts. |
| Service.CarService.RevertSale | src/bibip_car_service.py:227-269 | Outcome and files are those of `Ledger.RevertSale`. The sales index entry may already be dropped when the car turns out to be missing. |
| Service.CarService.TopModelsBySales | src/bibip_car_service.py:272-304 | Equals `Ledger.TopModels`: sales index, all cars, all models, the count, then the list, the sort and `[:3]`. |
| Service.CarService.CountModels | src/bibip_car_service.py:279-293 | The counting loop raises exactly as the entries' reads raise. Otherwise it gives the tally of the counted (name, brand) keys. |
| Service.CarService.CountEntry | src/bibip_car_service.py:280-293 | One entry of the loop: it extends the counted keys exactly as `SoldKeys` does, and the dict is their tally. |
| Service.CarService.EntryModel | src/bibip_car_service.py:281-293 | One entry's key: it raises on a missing log or a negative seek, and gives none for an undecodable sale, an unknown car or an unknown model. |
| Service.StatsList | src/bibip_car_service.py:295-301 | The loop over `model_count.items()` gives one `ModelSaleStats` per entry, in dict order. |
| Dicts.PutGet | src/bibip_car_service.py:39 | `d[k] = v`: `k` now maps to `v`, and every other key keeps its value. |
| Dicts.DeleteGet | src/bibip_car_service.py:253 | `del d[k]`: `k` is gone, and every other key keeps its value. |
| OffsetIndex.IndexRoundTrip | src/bibip_car_service.py:27-47 | Writing a dict with `_write_index` and reading it back gives the same dict in the same order. This holds for keys without `:`, newline or leading space. |
| OffsetIndex.IndexLookup | src/bibip_car_service.py:33-39 | A successful read knows a key exactly when some line gives it an offset, and it holds the last such line's offset. |
| OffsetIndex.AppendEntryLine | src/bibip_car_service.py:21-24 | Appending an entry line to an index file and reading it gives the old dict with the key set to the offset. |
| WriteFacts.ReadIndexLookup | src/bibip_car_service.py:27-40 | A missing index reads as `{}`. Lines with fewer than two `:` parts are skipped. A key is present exactly when some line gives it, and the last line wins. |
| WriteFacts.LoadedIndexKeys | src/bibip_car_service.py:27-40 | Every dict read from an index file has distinct keys that survive a write and a read. |
| WriteFacts.IndexAppendedReads | src/bibip_car_service.py:21-24 | After `_update_index`, the key maps to the position and every other entry is kept. |
| WriteFacts.AppendedReadsBack | src/bibip_car_service.py:13-18 | A read at the offset `_append_to_file` returned gives the appended line back, and the earlier contents are kept. |
| WriteFacts.AddCarReadBack | src/bibip_car_service.py:89-93 | `add_car` returns the car, and the record at the returned offset reads back as that car. |
| WriteFacts.AddCarIndexes | src/bibip_car_service.py:89-93 | The cars index maps the VIN to the new offset and keeps every other entry. No other file changes. |
| WriteFacts.AddModelReadBack | src/bibip_car_service.py:82-86 | `add_model` returns the model, and the record at the returned offset reads back as that model. |
| WriteFacts.AddModelIndexes | src/bibip_car_service.py:82-86 | The models index maps `str(id)` to the new offset and keeps every other entry. No other file changes. |
| ReadFacts.GetCarsExact | src/bibip_car_service.py:127-141 | Missing log: `[]`. Otherwise the result lists exactly the lines that decode to a car with the status, one car per line, in file order. |
| ReadFacts.JoinModelNone | src/bibip_car_service.py:151-161 | Once the car is read, the answer is `None` exactly when its model id is not in the models index. |
| ReadFacts.GetCarInfoNone | src/bibip_car_service.py:144-161 | The answer is `None` exactly when the VIN is not indexed, or when the car reads back but its model id is not indexed. |
| ReadFacts.GetCarInfoFound | src/bibip_car_service.py:144-188 | A full answer joins the indexed car and model. Sale date and cost are `None` exactly when the VIN is not in the sales index; otherwise they come from the indexed sale. |
| WriteFacts.SellCarRefusals | src/bibip_car_service.py:98-109 | Not found exactly when the VIN is not indexed. Already sold exactly when its car reads as sold. Any write implies both checks passed. |
| WriteFacts.SellCarMarksSold | src/bibip_car_service.py:103-115 | On success the record at the car's indexed offset reads as the same car with status sold, which is also the result. The cars index is unchanged. |
| WriteFacts.SellCarRecordsSale | src/bibip_car_service.py:117-123 | The sale reads back at the old end of the sales log. The sales index maps the VIN to that offset and keeps every other entry. |
| WriteFacts.SellCarKeepsOtherCars | src/bibip_car_service.py:111-115 | When the car's line held exactly its encoding, every other line of the cars log reads as before. |
| WriteFacts.RekeyedIndex | src/bibip_car_service.py:207 | `d[new] = d.pop(old)`: `new` maps to the offset, `old` is gone, other keys are kept, and the dict stays writable. |
| WriteFacts.UpdateVinRefusals | src/bibip_car_service.py:191-201 | A duplicate new VIN is refused first, then an unknown VIN. Any write implies both checks passed and the car read back. |
| WriteFacts.UpdateVinRenamesCar | src/bibip_car_service.py:197-208 | The result is the car under its new VIN, and its record reads so at the same offset. The cars index moves the offset from the old VIN to the new one and keeps every other key. |
| WriteFacts.UpdateVinMovesSale | src/bibip_car_service.py:210-223 | If the sales index lacks the old VIN, the sales log and index are unchanged. Otherwise the sale reads back with the new VIN and its entry moves to the new key; other keys are kept. |
| WriteFacts.UpdateVinInPlace | src/bibip_car_service.py:198-205 | When the renamed line fits in the old one, every other line of the cars log reads as before. |
| WriteFacts.FindSaleFirst | src/bibip_car_service.py:230-243 | The scan finds nothing exactly when no line holds a sale with the number. Otherwise it finds the first such line. |
| WriteFacts.RevertSaleRefusals | src/bibip_car_service.py:228-246 | A missing sales log raises, and a number no line holds is refused. In both cases nothing is written. |
| WriteFacts.RevertSaleDropsEntry | src/bibip_car_service.py:248-258 | The sale's VIN leaves the sales index only if its entry points at the found line, and the sales log is untouched. This holds even when the car then turns out missing. Car not found exactly when the VIN is not in the cars index. |
| WriteFacts.RevertSaleRestoresCar | src/bibip_car_service.py:256-269 | On success the result is the first matching sale's car marked available, and its record reads so at its indexed offset. The cars index is unchanged. |
| WriteFacts.RevertSaleInPlace | src/bibip_car_service.py:261-268 | A fitting rewrite keeps every other car line. A sold car held exactly is rewritten longer, and the next line's start is destroyed. |
| WriteFacts.SellThenRevertLine | src/bibip_car_service.py:261-268 | Selling a car whose line held exactly its available encoding and then writing it back as available restores the cars log character for character. |
| WriteFacts.RewriteRecordLonger | src/bibip_car_service.py:204-205 | A record longer than the line it overwrites, which held exactly its old encoding, destroys the start of the next line. |
| WriteFacts.UpdateVinSalesInPlace | src/bibip_car_service.py:213-220 | For a sold car, the sales log becomes the old one with the renamed sale written at the indexed offset. A renamed line that fits keeps every other sale line; a longer one over an exact line destroys the start of the next line. |
| WriteFacts.SellCarFrame | src/bibip_car_service.py:96-125 | Whatever the outcome, the models log, the models index and the cars index are unchanged, and the sales log is either unchanged or the old log plus the sale's line. |
| WriteFacts.SellCarKeepsSales | src/bibip_car_service.py:117-119 | Every offset inside the old sales log reads the same sale after `sell_car` as before, when the log ended with a newline. |
| WriteFacts.SellCarEndsLines | src/bibip_car_service.py:111-119 | `sell_car` keeps the cars log and the sales log ending with a newline. |
| WriteFacts.UpdateVinFrame | src/bibip_car_service.py:190-224 | Whatever the outcome, the models log and the models index are unchanged. |
| WriteFacts.RevertSaleFrame | src/bibip_car_service.py:227-269 | Whatever the outcome, the models log, the models index, the cars index and the sales log are unchanged; the sale line stays. |
| ReadAfterWrite.InfoAfter | src/bibip_car_service.py:144-188 | With the same cars index offset, a record of the same model and unchanged models files, the new report is the old one with the car's and the sale's fields replaced. |
| ReadAfterWrite.SellCarThenInfo | src/bibip_car_service.py:96-188 | After a successful sale, `get_car_info` for the car reports it sold with the sale's date and cost, and otherwise as before. |
| ReadAfterWrite.UpdateVinThenInfo | src/bibip_car_service.py:144-224 | After a successful rename, `get_car_info(new_vin)` is the old report under the new VIN, and `get_car_info(vin)` is `None`. |
| ReadAfterWrite.RevertSaleThenInfo | src/bibip_car_service.py:248-269 | After reverting a sale whose index entry pointed at the found line, `get_car_info` for its car reports it available, with no sale date or cost. |
| ReadFacts.EntryKeyRaises | src/bibip_car_service.py:281-293 | An entry raises exactly when the sales log is missing or its offset is negative. It counts exactly when its sale decodes and its car and model resolve. |
| ReadFacts.SoldKeysExact | src/bibip_car_service.py:279-293 | Counting raises exactly when some entry raises. Otherwise it counts one key per entry whose sale decodes and whose car and model resolve, in index order. |
| ReadFacts.TopModelsRanked | src/bibip_car_service.py:272-304 | A successful result is the ranking of the counted keys: at most three entries, most sold first. |
| Ranking.TallyCounts | src/bibip_car_service.py:278-293 | The `defaultdict` holds each counted key once, in first-encounter order, with its number of occurrences. |
| Ranking.StatsOfTally | src/bibip_car_service.py:295-301 | The stats list holds exactly the counted models, each with its count. |
| Ranking.SortDescCorrect | src/bibip_car_service.py:303 | The sort is descending by count, is a permutation, and keeps entries with equal counts in their original order. |
| Ranking.TopOfDescending | src/bibip_car_service.py:304 | `[:3]` of a descending list keeps its order. Anything left out is no larger than every entry kept. |
| Ranking.RankedCorrect | src/bibip_car_service.py:295-304 | At most three entries, most sold first, each a counted model with its count; fewer than three only when fewer models sold; a model left out sold no more than any entry shown. |
| Ranking.RankedTieOrder | src/bibip_car_service.py:296-304 | Among equal counts, the entries shown come in the order their models were first counted, and a model left out at the shown count was first counted after every shown entry with that count. |
| Collect.KeyedByLookup | src/bibip_car_service.py:50-79 | `_read_all_models` and `_read_all_cars` (`AllModels`, `AllCars`, `{}` without a log) build their dict line by line: it holds each key once, a key is known exactly when some line decodes to an item with it, and the last such line wins. |
| Collect.KeptExact | src/bibip_car_service.py:132-140 | The kept items are exactly those that decoded and pass the test, in order. |
| Collect.GatheredExact | src/bibip_car_service.py:279-293 | Gathering succeeds exactly when no item raised. Its items are then exactly the present ones, in order. |
| RecordLog.ReadAppended | src/bibip_car_service.py:15-17 | The line written at the old end of a file reads back at that offset. |
| RecordLog.ReadOverwritten | src/bibip_car_service.py:114-115 | A line written over a file at an offset reads back at that offset. |
| RecordLog.OverwriteKeepsLine | src/bibip_car_service.py:114-115 | An overwrite keeps every line that starts before it or at or after its end. |
| RecordLog.OverwriteClobbersInside | src/bibip_car_service.py:267-268 | A line that started strictly inside the written span is gone; its offset now reads the tail of the new line. |
| RecordLog.OverwriteFitsKeepsLines | src/bibip_car_service.py:114-115 | An overwrite no longer than the line it replaces keeps every other line. |
| RecordLog.OverwriteLongerClobbersNext | src/bibip_car_service.py:204-205 | An overwrite longer than the line it replaces destroys the start of the next line. |
| RecordLog.FirstPickedIsFirst | src/bibip_car_service.py:230-243 | The scan's result is the first accepted line after the start position, and no line before it is accepted. It is `None` exactly when no line is accepted. |
| Records.CarRoundTrip | src/bibip_car_service.py:91 | A car's encoded line decodes back to the car. |
| Records.ModelRoundTrip | src/bibip_car_service.py:84 | A model's encoded line decodes back to the model. |
| Records.SaleRoundTrip | src/bibip_car_service.py:119 | A sale's encoded line decodes back to the sale. |
| Records.SoldIsNotLonger | src/bibip_car_service.py:111-112 | Marking a car sold never lengthens its line. |
| Records.StatusChangeLength | src/bibip_car_service.py:265-266 | A car's line changes length with its status by exactly the difference of the status names. |
| Text.ParseIntOfIntToString | src/bibip_car_service.py:38 | `int(str(i)) == i`, so every offset written to an index reads back. |
| Ledger.Contents | src/bibip_car_service.py:15-16 | The text an append-mode `open` starts from: a missing file is empty. |
| Ledger.Appended | src/bibip_car_service.py:13-18 | `_append_to_file`: the file becomes its old text, the data and a newline. |
| Ledger.IndexAppended | src/bibip_car_service.py:21-24 | `_update_index`: the index file gains one `key:position` line. |
| Ledger.LoadIndex | src/bibip_car_service.py:27-40 | `_read_index_to_dict`: a missing file is `{}`, otherwise the parse of its lines; the only failure is an offset `int()` rejects. |
| Ledger.IndexWritten | src/bibip_car_service.py:43-47 | `_write_index`: the index file is replaced by the dict's lines. |
| Ledger.ReadRecordLine | src/bibip_car_service.py:150-152 | `open`, `seek`, `readline().strip()`: a missing file and a negative offset raise; otherwise the stripped line at the offset. |
| Ledger.CarAt | src/bibip_car_service.py:150-153 | The car at an offset of the cars log; a line that does not decode raises. A result lies inside the log. |
| Ledger.ModelAt | src/bibip_car_service.py:161-164 | The model at an offset of the models log, as `CarAt`. |
| Ledger.SaleAt | src/bibip_car_service.py:169-172 | The sale at an offset of the sales log, as `CarAt`. |
| Ledger.Rewritten | src/bibip_car_service.py:114-115 | `seek` then `write(data + '\n')` in `r+` mode: the file overwritten from the offset. |
| Ledger.ReadAllModels | src/bibip_car_service.py:50-63 | `_read_all_models`: `{}` without a log, otherwise the dict keyed by model id built from the decodable lines. |
| Ledger.ReadAllCars | src/bibip_car_service.py:66-79 | `_read_all_cars`: `{}` without a log, otherwise the dict keyed by VIN built from the decodable lines. |
| Ledger.AddModel | src/bibip_car_service.py:82-86 | The model is appended to the models log and `str(id)` is indexed at the old end. |
| Ledger.AddCar | src/bibip_car_service.py:89-93 | The car is appended to the cars log and its VIN is indexed at the old end. |
| Ledger.SellCar | src/bibip_car_service.py:96-109 | The checks of `sell_car`: index read, unknown VIN, unreadable record, already sold; each refusal writes nothing. |
| Ledger.RecordSale | src/bibip_car_service.py:111-125 | The writes of `sell_car`: the car rewritten as sold, the sale appended, then the sales index read and rewritten with the VIN at the sale's offset. |
| Ledger.GetCars | src/bibip_car_service.py:127-141 | `get_cars`: the decodable cars with the status, in file order; `[]` without a log. |
| Ledger.GetCarInfo | src/bibip_car_service.py:144-153 | `get_car_info`: `None` for an unindexed VIN, otherwise the car at its offset joined with its model. |
| Ledger.JoinModel | src/bibip_car_service.py:155-188 | `None` for an unindexed model id; otherwise the model and the optional sale joined into a `CarFullInfo`. |
| Ledger.SaleFields | src/bibip_car_service.py:166-177 | Sale date and cost from the indexed sale, or both `None` when the VIN has no sales entry. |
| Ledger.Rekeyed | src/bibip_car_service.py:207 | `d[new] = d.pop(old)`. |
| Ledger.UpdateVin | src/bibip_car_service.py:190-201 | The checks of `update_vin`: taken new VIN, then unknown VIN, then an unreadable record; each refusal writes nothing. |
| Ledger.RenameCar | src/bibip_car_service.py:202-224 | The writes of `update_vin`: car line and cars index, then, for a VIN in the sales index, the sale line and the sales index. |
| Ledger.FindSale | src/bibip_car_service.py:230-243 | The scan of `revert_sale`: the first line holding a sale with the number, and its offset. |
| Ledger.RevertSale | src/bibip_car_service.py:227-254 | `revert_sale`: a missing log raises, an unknown number is refused, then the sales index is read and the entry dropped. |
| Ledger.DropSaleEntry | src/bibip_car_service.py:251-254 | The sales index rewritten without the VIN only when its entry points at the found line. |
| Ledger.RestoreCar | src/bibip_car_service.py:256-269 | The car looked up by VIN and rewritten as available; an unknown VIN raises after the index was already written. |
| Ledger.ResolvedModel | src/bibip_car_service.py:287-292 | The (name, brand) a sold VIN's car and model resolve to, if both are known. |
| Ledger.EntryKey | src/bibip_car_service.py:280-293 | One sales index entry: a failed read raises, an undecodable sale or an unresolved car or model counts nothing. |
| Ledger.SoldKeys | src/bibip_car_service.py:279-293 | The keys counted over the sales index entries in order; the first entry that raises ends the count. |
| Ledger.TopModels | src/bibip_car_service.py:272-304 | `top_models_by_sales`: sales index, all cars, all models, the count, then the ranking. |
| RecordLog.LineAt | src/bibip_car_service.py:151-152 | `readline()` after `seek(offset)`: the text up to and including the next newline, empty at or past the end. |
| RecordLog.Lines | src/bibip_car_service.py:33 | `for line in f`: the file cut after each newline; every line is non-empty and holds a newline only at its end. |
| RecordLog.Overwrite | src/bibip_car_service.py:114-115 | The write in `r+` mode: the data replaces the text from the offset, everything before and after it is kept. |
| RecordLog.FirstPicked | src/bibip_car_service.py:230-243 | The `while line:` scan: the first line from a position that a test accepts, with its offset. |
| OffsetIndex.ParseIndexLine | src/bibip_car_service.py:34-38 | One index line: stripped and split on `:`; fewer than two parts is skipped, otherwise the first part and `int()` of the second. |
| OffsetIndex.BuildIndex | src/bibip_car_service.py:33-39 | The dict built line by line, each parsed line setting its key; an unparsable offset fails. |
| OffsetIndex.IndexText | src/bibip_car_service.py:46-47 | One `key:offset` line per dict entry, in dict order. |
| Text.Strip | src/bibip_car_service.py:34 | `strip()`: whitespace removed from both ends, the middle kept. |
| Text.ParseInt | src/bibip_car_service.py:38 | `int()` of an optional sign and ASCII digits; anything else fails. |
| Ranking.Tally | src/bibip_car_service.py:277-293 | The `defaultdict(int)` after counting each key, in first-encounter order. |
| Ranking.SortDesc | src/bibip_car_service.py:303 | `sort(key=sales_number, reverse=True)`, stable: an insertion sort by descending count. |
| Ranking.FirstThree | src/bibip_car_service.py:304 | `result[:3]`. |
| Dicts.Put | src/bibip_car_service.py:39 | `d[k] = v` on an insertion-ordered dict: a present key keeps its place, a new key goes last. |
| Dicts.Delete | src/bibip_car_service.py:253 | `del d[k]`: the entry for `k` is removed, the others keep their order. |

## Left out

- Real file I/O is not modelled: `open`, `os.path.join`, `os.path.exists`,
  and `tell`/`seek` as system calls. The directory is a map from file name
  to contents. `rootDirectoryPath` is kept but never used to build paths.
- JSON and pydantic (`model_dump_json`, `json.loads`, `Model(**...)`) are
  replaced by a small lossless line codec (`Records`). A line the codec
  rejects stands for a line `json.loads` rejects.
  - A JSON-valid line with the wrong fields makes pydantic raise a
    `ValidationError`, which no loop catches. The model treats it as an
    undecodable line: skipped in `_read_all_*`, `get_cars`, the
    `revert_sale` scan and `top_models_by_sales`, and raising on a point
    read.
- `Records.Car`, `Records.Model` and `Records.Sale` carry only the fields
  the service reads. Price, cost and dates are opaque text.
- Characters stand for bytes: offsets count characters. Multi-byte text and
  the opaque cookies `tell()` returns in text mode are not modelled.
  Universal newline translation (`\r`, `\r\n`) is not modelled either;
  only `\n` ends a line.
- `int(parts[1])` accepts an optional sign and ASCII digits. Python also
  accepts surrounding spaces, underscores and other Unicode digits. Every
  other text raises, as `BadOffset`.
- Exceptions are a `Result` with one error constructor per cause; Python's
  exception types and messages are not kept. Operations are not atomic:
  each raise keeps the writes already made, as in the source.
- A seek past the end of a file followed by a write fills the gap with
  `'\0'`, which is how POSIX files behave.
- WriteFacts.AddCarIndexes, WriteFacts.AddModelIndexes: stated only for an
  index file that ends with a newline, as `_write_index` and `_update_index`
  always leave it. `AddCarIndexes` also needs a VIN without `:`, newline or
  leading space; any other key does not survive the `key:offset` format.
- WriteFacts.UpdateVinRenamesCar, WriteFacts.UpdateVinMovesSale: stated
  for a new VIN that survives the `key:offset` format (no `:`, newline or
  leading space). With any other VIN the index no longer reads back as
  written.
- WriteFacts.SellCarKeepsOtherCars: stated for a car line that holds exactly
  the car's encoding, as `add_car` writes it.
- WriteFacts.UpdateVinInPlace: no other line is shown to survive when the
  renamed line does not fit. WriteFacts.RevertSaleInPlace shows what is then
  lost.
- WriteFacts.SellCarKeepsSales: stated for a sales log that ends with a
  newline, as the service's own writes leave it (`SellCarEndsLines`).
- WriteFacts.UpdateVinSalesInPlace: covers a sold car only; without a sales
  entry the sales files are unchanged, as `UpdateVinMovesSale` states.
- ReadAfterWrite.UpdateVinThenInfo: stated for a new VIN the sales index
  does not already know. `update_vin` checks only the cars index, so a
  stale sales entry under the new VIN would show its sale.
- ReadAfterWrite.SellCarThenInfo, ReadAfterWrite.UpdateVinThenInfo,
  ReadAfterWrite.RevertSaleThenInfo: stated for a car whose report was
  complete before the write, so that its model resolves.
- Concurrent use of the directory by several services is not modelled.
