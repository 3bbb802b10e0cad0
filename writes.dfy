/**
  What the mutating operations do: `add_model`, `add_car`, `sell_car`,
  `update_vin` and `revert_sale`, each stated on the files they leave.
 */
module WriteFacts {
  import opened Base
  import opened Text
  import opened Records
  import opened RecordLog
  import opened Dicts
  import opened OffsetIndex
  import opened Ledger

  // ---- index files ------------------------------------------------------------------

  predicate AllIndexKeys(d: Index) {
    forall k :: k in Keys(d) ==> IsIndexKey(k)
  }

  /** Every key `_read_index_to_dict` returns survives a write and a read. */
  lemma {:induction false} LoadedIndexKeys(fs: FileSystem, name: FileName)
    requires LoadIndex(fs, name).Ok?
    ensures AllIndexKeys(LoadIndex(fs, name).value) && Distinct(LoadIndex(fs, name).value)
  {
    if name in fs {
      LoadedKeysAreIndexKeys(fs[name]);
    }
  }

  /**
    `_read_index_to_dict(name)`: a missing file reads as the empty dict;
    otherwise a successful read skips every line without a `':'` (fewer
    than two parts), knows `key` exactly when some line gives it an offset,
    and holds the offset of the last such line.
   */
  lemma {:induction false} ReadIndexLookup(fs: FileSystem, name: FileName, key: string)
    ensures name !in fs ==> LoadIndex(fs, name) == Ok([])
    ensures name in fs && LoadIndex(fs, name).Ok? ==>
      var lines := Lines(fs[name]);
      var ps := ParseLines(lines);
      && (forall j :: 0 <= j < |lines| && ':' !in Strip(lines[j]) ==> ps[j] == Skip)
      && (Get(LoadIndex(fs, name).value, key).None? <==> forall j :: 0 <= j < |ps| ==> !HasEntryFor(ps[j], key))
      && (forall j :: 0 <= j < |ps| && IsLastEntryFor(ps, j, key) ==>
            Get(LoadIndex(fs, name).value, key) == Some(ps[j].offset))
  {
    if name in fs && LoadIndex(fs, name).Ok? {
      IndexLookup(fs[name], key);
    }
  }

  /** A dict written with `_write_index` reads back unchanged. */
  lemma {:induction false} WrittenIndexReadsBack(fs: FileSystem, name: FileName, d: Index)
    requires Distinct(d) && AllIndexKeys(d)
    ensures LoadIndex(IndexWritten(fs, name, d), name) == Ok(d)
  {
    IndexRoundTrip(d);
  }

  lemma {:induction false} PutIndexKeys(d: Index, k: string, v: int)
    requires Distinct(d) && AllIndexKeys(d) && IsIndexKey(k)
    ensures Distinct(Put(d, k, v)) && AllIndexKeys(Put(d, k, v))
  {
    PutDistinct(d, k, v);
  }

  lemma {:induction false} DeleteIndexKeys(d: Index, k: string)
    requires Distinct(d) && AllIndexKeys(d)
    ensures Distinct(Delete(d, k)) && AllIndexKeys(Delete(d, k))
  {
    DeleteGet(d, k, k);
    DeleteEntries(d, k);
    var r := Delete(d, k);
    forall k' | k' in Keys(r) ensures IsIndexKey(k') {
      var i := IndexOf(r, k');
      assert r[i] in d;
      var j :| 0 <= j < |d| && d[j] == r[i];
      assert Keys(d)[j] == k';
    }
  }

  /** `str(model.id)` is always a key the index files keep. */
  lemma {:induction false} IntKeyIsIndexKey(i: int)
    ensures IsIndexKey(IntToString(i))
  {
    var s := IntToString(i);
    assert forall k :: 0 <= k < |s| ==> s[k] != ':' && s[k] != '\n';
  }

  /** `_update_index` on an index file that ends its last line: the key now maps to `position`. */
  lemma {:induction false} IndexAppendedReads(fs: FileSystem, name: FileName, key: string, position: int)
    requires EndsWithNewline(Contents(fs, name)) && IsIndexKey(key)
    ensures LoadIndex(IndexAppended(fs, name, key, position), name) ==
      match LoadIndex(fs, name)
      case Ok(d) => Ok(Put(d, key, position))
      case Fail(e) => Fail(e)
  {
    AppendEntryLine(Contents(fs, name), key, position);
    if name !in fs {
      assert Lines("") == [];
    }
  }

  // ---- point reads of records the service wrote ---------------------------------------

  /** A record line written by the service reads back as that record. */
  lemma {:induction false} ReadWrittenCar(fs: FileSystem, offset: nat, car: Car)
    requires CarsLog in fs && LineAt(fs[CarsLog], offset) == EncodeCar(car) + "\n"
    ensures CarAt(fs, offset) == Ok(car)
  {
    StripTerminatedLine(EncodeCar(car));
    CarRoundTrip(car);
  }

  lemma {:induction false} ReadWrittenModel(fs: FileSystem, offset: nat, model: Model)
    requires ModelsLog in fs && LineAt(fs[ModelsLog], offset) == EncodeModel(model) + "\n"
    ensures ModelAt(fs, offset) == Ok(model)
  {
    StripTerminatedLine(EncodeModel(model));
    ModelRoundTrip(model);
  }

  lemma {:induction false} ReadWrittenSale(fs: FileSystem, offset: nat, sale: Sale)
    requires SalesLog in fs && LineAt(fs[SalesLog], offset) == EncodeSale(sale) + "\n"
    ensures SaleAt(fs, offset) == Ok(sale)
  {
    StripTerminatedLine(EncodeSale(sale));
    SaleRoundTrip(sale);
  }

  /** `_append_to_file` then a read at the offset it returned gives the line back. */
  lemma {:induction false} AppendedReadsBack(fs: FileSystem, name: FileName, data: string)
    requires IsRecordLine(data)
    ensures LineAt(Appended(fs, name, data)[name], |Contents(fs, name)|) == data + "\n"
    ensures Appended(fs, name, data)[name][..|Contents(fs, name)|] == Contents(fs, name)
  {
    ReadAppended(Contents(fs, name), data);
  }

  /** A record rewritten in place reads back at the offset it was written to. */
  lemma {:induction false} RewrittenReadsBack(fs: FileSystem, name: FileName, offset: nat, data: string)
    requires name in fs && IsRecordLine(data)
    ensures LineAt(Rewritten(fs, name, offset, data)[name], offset) == data + "\n"
  {
    RecordLineTerminated(data);
    ReadOverwritten(fs[name], offset, data + "\n");
  }

  /** A record and its newline make one terminated line. */
  lemma {:induction false} RecordLineTerminated(data: string)
    requires IsRecordLine(data)
    ensures IsTerminatedLine(data + "\n")
  {
    forall k | 0 <= k < |data| ensures (data + "\n")[k] != '\n' {
      assert (data + "\n")[k] == data[k];
    }
  }

  // ---- add_model, add_car ----------------------------------------------------------------

  /**
    `add_car(car)` returns the car and appends its record at the old end of
    the cars log, so reading at that offset gives the car back.
   */
  lemma {:induction false} AddCarReadBack(fs: FileSystem, car: Car)
    ensures AddCar(fs, car).0 == car
    ensures AddCar(fs, car).1[CarsLog] == Contents(fs, CarsLog) + EncodeCar(car) + "\n"
    ensures CarAt(AddCar(fs, car).1, |Contents(fs, CarsLog)|) == Ok(car)
  {
    var fs' := AddCar(fs, car).1;
    AppendedReadsBack(fs, CarsLog, EncodeCar(car));
    assert fs'[CarsLog] == Appended(fs, CarsLog, EncodeCar(car))[CarsLog];
    ReadWrittenCar(fs', |Contents(fs, CarsLog)|, car);
  }

  /**
    After `add_car(car)` the cars index maps the VIN to the offset of the new
    record and keeps every other entry; no file but the cars log and its
    index changes.
   */
  lemma {:induction false} AddCarIndexes(fs: FileSystem, car: Car)
    requires IsIndexKey(car.vin) && EndsWithNewline(Contents(fs, CarsIndexFile))
    ensures LoadIndex(AddCar(fs, car).1, CarsIndexFile) ==
      match LoadIndex(fs, CarsIndexFile)
      case Ok(d) => Ok(Put(d, car.vin, |Contents(fs, CarsLog)|))
      case Fail(e) => Fail(e)
    ensures forall name :: name != CarsLog && name != CarsIndexFile ==>
      (name in AddCar(fs, car).1 <==> name in fs) && (name in fs ==> AddCar(fs, car).1[name] == fs[name])
  {
    var fs1 := Appended(fs, CarsLog, EncodeCar(car));
    IndexAppendedReads(fs1, CarsIndexFile, car.vin, |Contents(fs, CarsLog)|);
    assert LoadIndex(fs1, CarsIndexFile) == LoadIndex(fs, CarsIndexFile);
  }

  /**
    `add_model(model)` returns the model and appends its record at the old
    end of the models log, so reading at that offset gives the model back.
   */
  lemma {:induction false} AddModelReadBack(fs: FileSystem, model: Model)
    ensures AddModel(fs, model).0 == model
    ensures AddModel(fs, model).1[ModelsLog] == Contents(fs, ModelsLog) + EncodeModel(model) + "\n"
    ensures ModelAt(AddModel(fs, model).1, |Contents(fs, ModelsLog)|) == Ok(model)
  {
    var fs' := AddModel(fs, model).1;
    AppendedReadsBack(fs, ModelsLog, EncodeModel(model));
    assert fs'[ModelsLog] == Appended(fs, ModelsLog, EncodeModel(model))[ModelsLog];
    ReadWrittenModel(fs', |Contents(fs, ModelsLog)|, model);
  }

  /**
    After `add_model(model)` the models index maps `str(model.id)` to the
    offset of the new record and keeps every other entry; no file but the
    models log and its index changes.
   */
  lemma {:induction false} AddModelIndexes(fs: FileSystem, model: Model)
    requires EndsWithNewline(Contents(fs, ModelsIndexFile))
    ensures LoadIndex(AddModel(fs, model).1, ModelsIndexFile) ==
      match LoadIndex(fs, ModelsIndexFile)
      case Ok(d) => Ok(Put(d, IntToString(model.id), |Contents(fs, ModelsLog)|))
      case Fail(e) => Fail(e)
    ensures forall name :: name != ModelsLog && name != ModelsIndexFile ==>
      (name in AddModel(fs, model).1 <==> name in fs) && (name in fs ==> AddModel(fs, model).1[name] == fs[name])
  {
    var fs1 := Appended(fs, ModelsLog, EncodeModel(model));
    IntKeyIsIndexKey(model.id);
    IndexAppendedReads(fs1, ModelsIndexFile, IntToString(model.id), |Contents(fs, ModelsLog)|);
    assert LoadIndex(fs1, ModelsIndexFile) == LoadIndex(fs, ModelsIndexFile);
  }

  // ---- sell_car -------------------------------------------------------------------------

  /**
    `sell_car(sale)` refuses an unknown VIN and a car already sold, and in
    both cases, as in every case where it fails before the car's record is
    rewritten, it writes nothing.
   */
  lemma {:induction false} SellCarRefusals(fs: FileSystem, sale: Sale)
    ensures SellCar(fs, sale).0 == Fail(CarNotFound(sale.carVin)) <==>
      LoadIndex(fs, CarsIndexFile).Ok? && Get(LoadIndex(fs, CarsIndexFile).value, sale.carVin).None?
    ensures SellCar(fs, sale).0 == Fail(CarAlreadySold(sale.carVin)) <==>
      LoadIndex(fs, CarsIndexFile).Ok? && Get(LoadIndex(fs, CarsIndexFile).value, sale.carVin).Some? &&
      CarAt(fs, Get(LoadIndex(fs, CarsIndexFile).value, sale.carVin).value).Ok? &&
      CarAt(fs, Get(LoadIndex(fs, CarsIndexFile).value, sale.carVin).value).value.status == Sold
    ensures SellCar(fs, sale).1 != fs ==>
      LoadIndex(fs, CarsIndexFile).Ok? && Get(LoadIndex(fs, CarsIndexFile).value, sale.carVin).Some? &&
      CarAt(fs, Get(LoadIndex(fs, CarsIndexFile).value, sale.carVin).value).Ok? &&
      CarAt(fs, Get(LoadIndex(fs, CarsIndexFile).value, sale.carVin).value).value.status != Sold
  {
    SellCarNotFound(fs, sale);
    SellCarAlreadySold(fs, sale);
    SellCarWritesOnlyUnsold(fs, sale);
  }

  lemma {:induction false} SellCarNotFound(fs: FileSystem, sale: Sale)
    ensures SellCar(fs, sale).0 == Fail(CarNotFound(sale.carVin)) <==>
      LoadIndex(fs, CarsIndexFile).Ok? && Get(LoadIndex(fs, CarsIndexFile).value, sale.carVin).None?
  {
  }

  lemma {:induction false} SellCarAlreadySold(fs: FileSystem, sale: Sale)
    ensures SellCar(fs, sale).0 == Fail(CarAlreadySold(sale.carVin)) <==>
      LoadIndex(fs, CarsIndexFile).Ok? && Get(LoadIndex(fs, CarsIndexFile).value, sale.carVin).Some? &&
      CarAt(fs, Get(LoadIndex(fs, CarsIndexFile).value, sale.carVin).value).Ok? &&
      CarAt(fs, Get(LoadIndex(fs, CarsIndexFile).value, sale.carVin).value).value.status == Sold
  {
  }

  lemma {:induction false} SellCarWritesOnlyUnsold(fs: FileSystem, sale: Sale)
    ensures SellCar(fs, sale).1 != fs ==>
      LoadIndex(fs, CarsIndexFile).Ok? && Get(LoadIndex(fs, CarsIndexFile).value, sale.carVin).Some? &&
      CarAt(fs, Get(LoadIndex(fs, CarsIndexFile).value, sale.carVin).value).Ok? &&
      CarAt(fs, Get(LoadIndex(fs, CarsIndexFile).value, sale.carVin).value).value.status != Sold
  {
    match LoadIndex(fs, CarsIndexFile)
    case Fail(e) =>
    case Ok(carsIndex) =>
      match Get(carsIndex, sale.carVin)
      case None =>
      case Some(offset) =>
        match CarAt(fs, offset)
        case Fail(e) =>
        case Ok(car) =>
  }

  /** The car `sell_car` looks up, and where. */
  lemma {:induction false} SellCarTarget(fs: FileSystem, sale: Sale) returns (offset: nat, car: Car)
    requires SellCar(fs, sale).0.Ok?
    ensures LoadIndex(fs, CarsIndexFile).Ok?
    ensures Get(LoadIndex(fs, CarsIndexFile).value, sale.carVin) == Some(offset as int)
    ensures CarAt(fs, offset) == Ok(car) && car.status != Sold
    ensures CarsLog in fs && SellCar(fs, sale) == RecordSale(fs, sale, offset, car)
  {
    var carsIndex := LoadIndex(fs, CarsIndexFile).value;
    offset := Get(carsIndex, sale.carVin).value as nat;
    car := CarAt(fs, offset).value;
  }

  /**
    A successful `sell_car(sale)`: the record at the car's indexed offset
    now reads as the same car with status sold, which is also what it
    returns, and the cars index is unchanged.
   */
  lemma {:induction false} SellCarMarksSold(fs: FileSystem, sale: Sale) returns (offset: nat, car: Car)
    requires SellCar(fs, sale).0.Ok?
    ensures LoadIndex(fs, CarsIndexFile).Ok?
    ensures Get(LoadIndex(fs, CarsIndexFile).value, sale.carVin) == Some(offset as int)
    ensures CarAt(fs, offset) == Ok(car) && car.status != Sold
    ensures SellCar(fs, sale).0 == Ok(car.(status := Sold))
    ensures CarAt(SellCar(fs, sale).1, offset) == Ok(car.(status := Sold))
    ensures LoadIndex(SellCar(fs, sale).1, CarsIndexFile) == LoadIndex(fs, CarsIndexFile)
  {
    offset, car := SellCarTarget(fs, sale);
    RecordSaleMarksSold(fs, sale, offset, car);
  }

  lemma {:induction false} RecordSaleMarksSold(fs: FileSystem, sale: Sale, offset: nat, car: Car)
    requires CarsLog in fs && RecordSale(fs, sale, offset, car).0.Ok?
    ensures RecordSale(fs, sale, offset, car).0 == Ok(car.(status := Sold))
    ensures CarAt(RecordSale(fs, sale, offset, car).1, offset) == Ok(car.(status := Sold))
    ensures LoadIndex(RecordSale(fs, sale, offset, car).1, CarsIndexFile) == LoadIndex(fs, CarsIndexFile)
  {
    var sold := car.(status := Sold);
    var fs1 := Rewritten(fs, CarsLog, offset, EncodeCar(sold));
    var fs2 := Appended(fs1, SalesLog, EncodeSale(sale));
    var salesIndex := LoadIndex(fs2, SalesIndexFile).value;
    var fs' := IndexWritten(fs2, SalesIndexFile, Put(salesIndex, sale.carVin, |Contents(fs1, SalesLog)|));
    assert RecordSale(fs, sale, offset, car) == (Ok(sold), fs');
    RewrittenReadsBack(fs, CarsLog, offset, EncodeCar(sold));
    assert fs'[CarsLog] == fs1[CarsLog];
    ReadWrittenCar(fs', offset, sold);
    assert (CarsIndexFile in fs' <==> CarsIndexFile in fs) && (CarsIndexFile in fs ==> fs'[CarsIndexFile] == fs[CarsIndexFile]);
  }

  /**
    A successful `sell_car(sale)`: the sale reads back at the old end of the
    sales log, and the sales index maps the VIN to that offset and keeps
    every other entry.
   */
  lemma {:induction false} SellCarRecordsSale(fs: FileSystem, sale: Sale) returns (salesIndex: Index)
    requires SellCar(fs, sale).0.Ok?
    ensures SaleAt(SellCar(fs, sale).1, |Contents(fs, SalesLog)|) == Ok(sale)
    ensures LoadIndex(fs, SalesIndexFile) == Ok(salesIndex)
    ensures LoadIndex(SellCar(fs, sale).1, SalesIndexFile) ==
      Ok(Put(salesIndex, sale.carVin, |Contents(fs, SalesLog)|))
    ensures forall k :: (Get(LoadIndex(SellCar(fs, sale).1, SalesIndexFile).value, k) ==
      if k == sale.carVin then Some(|Contents(fs, SalesLog)|) else Get(salesIndex, k))
  {
    var offset, car := SellCarTarget(fs, sale);
    LoadedIndexKeys(fs, CarsIndexFile);
    GetFound(LoadIndex(fs, CarsIndexFile).value, sale.carVin);
    salesIndex := RecordSaleAppends(fs, sale, offset, car);
  }

  lemma {:induction false} RecordSaleAppends(fs: FileSystem, sale: Sale, offset: nat, car: Car) returns (salesIndex: Index)
    requires CarsLog in fs && RecordSale(fs, sale, offset, car).0.Ok? && IsIndexKey(sale.carVin)
    ensures SaleAt(RecordSale(fs, sale, offset, car).1, |Contents(fs, SalesLog)|) == Ok(sale)
    ensures LoadIndex(fs, SalesIndexFile) == Ok(salesIndex)
    ensures LoadIndex(RecordSale(fs, sale, offset, car).1, SalesIndexFile) ==
      Ok(Put(salesIndex, sale.carVin, |Contents(fs, SalesLog)|))
    ensures forall k :: (Get(LoadIndex(RecordSale(fs, sale, offset, car).1, SalesIndexFile).value, k) ==
      if k == sale.carVin then Some(|Contents(fs, SalesLog)|) else Get(salesIndex, k))
  {
    var fs1 := Rewritten(fs, CarsLog, offset, EncodeCar(car.(status := Sold)));
    var fs2 := Appended(fs1, SalesLog, EncodeSale(sale));
    var saleOffset := |Contents(fs, SalesLog)|;
    var fs' := RecordSale(fs, sale, offset, car).1;
    assert Contents(fs1, SalesLog) == Contents(fs, SalesLog);
    assert LoadIndex(fs2, SalesIndexFile) == LoadIndex(fs, SalesIndexFile);
    salesIndex := LoadIndex(fs, SalesIndexFile).value;
    assert fs' == IndexWritten(fs2, SalesIndexFile, Put(salesIndex, sale.carVin, saleOffset));
    AppendedReadsBack(fs1, SalesLog, EncodeSale(sale));
    assert fs'[SalesLog] == fs2[SalesLog];
    ReadWrittenSale(fs', saleOffset, sale);
    LoadedIndexKeys(fs, SalesIndexFile);
    PutIndexKeys(salesIndex, sale.carVin, saleOffset);
    WrittenIndexReadsBack(fs2, SalesIndexFile, Put(salesIndex, sale.carVin, saleOffset));
    forall k ensures Get(Put(salesIndex, sale.carVin, saleOffset), k) ==
      (if k == sale.carVin then Some(saleOffset) else Get(salesIndex, k))
    {
      PutGet(salesIndex, sale.carVin, saleOffset, k);
    }
  }

  // ---- update_vin -----------------------------------------------------------------------

  /**
    `d[new_key] = d.pop(key)`: the new key maps to the value, the old key is
    gone, every other key keeps its value, and the dict stays writable.
   */
  lemma {:induction false} RekeyedIndex(d: Index, key: string, newKey: string, v: int)
    requires Distinct(d) && AllIndexKeys(d) && IsIndexKey(newKey)
    ensures Distinct(Rekeyed(d, key, newKey, v)) && AllIndexKeys(Rekeyed(d, key, newKey, v))
    ensures forall k :: (Get(Rekeyed(d, key, newKey, v), k) ==
      if k == newKey then Some(v) else if k == key then None else Get(d, k))
  {
    DeleteIndexKeys(d, key);
    PutIndexKeys(Delete(d, key), newKey, v);
    forall k ensures Get(Rekeyed(d, key, newKey, v), k) ==
      if k == newKey then Some(v) else if k == key then None else Get(d, k)
    {
      DeleteGet(d, key, k);
      PutGet(Delete(d, key), newKey, v, k);
    }
  }

  /**
    `update_vin(vin, new_vin)` refuses a new VIN the cars index already
    holds, before it looks at the old one; then refuses an old VIN the
    index does not hold. It writes nothing unless both checks pass and the
    car reads back.
   */
  lemma {:induction false} UpdateVinRefusals(fs: FileSystem, vin: string, newVin: string)
    ensures UpdateVin(fs, vin, newVin).0 == Fail(CarExists(newVin)) <==>
      LoadIndex(fs, CarsIndexFile).Ok? && Get(LoadIndex(fs, CarsIndexFile).value, newVin).Some?
    ensures UpdateVin(fs, vin, newVin).0 == Fail(CarNotFound(vin)) <==>
      LoadIndex(fs, CarsIndexFile).Ok? && Get(LoadIndex(fs, CarsIndexFile).value, newVin).None? &&
      Get(LoadIndex(fs, CarsIndexFile).value, vin).None?
    ensures UpdateVin(fs, vin, newVin).1 != fs ==>
      LoadIndex(fs, CarsIndexFile).Ok? && Get(LoadIndex(fs, CarsIndexFile).value, newVin).None? &&
      Get(LoadIndex(fs, CarsIndexFile).value, vin).Some? &&
      CarAt(fs, Get(LoadIndex(fs, CarsIndexFile).value, vin).value).Ok?
  {
    UpdateVinTaken(fs, vin, newVin);
    UpdateVinUnknown(fs, vin, newVin);
    UpdateVinWritesOnlyFound(fs, vin, newVin);
  }

  lemma {:induction false} UpdateVinTaken(fs: FileSystem, vin: string, newVin: string)
    ensures UpdateVin(fs, vin, newVin).0 == Fail(CarExists(newVin)) <==>
      LoadIndex(fs, CarsIndexFile).Ok? && Get(LoadIndex(fs, CarsIndexFile).value, newVin).Some?
  {
  }

  lemma {:induction false} UpdateVinUnknown(fs: FileSystem, vin: string, newVin: string)
    ensures UpdateVin(fs, vin, newVin).0 == Fail(CarNotFound(vin)) <==>
      LoadIndex(fs, CarsIndexFile).Ok? && Get(LoadIndex(fs, CarsIndexFile).value, newVin).None? &&
      Get(LoadIndex(fs, CarsIndexFile).value, vin).None?
  {
  }

  lemma {:induction false} UpdateVinWritesOnlyFound(fs: FileSystem, vin: string, newVin: string)
    ensures UpdateVin(fs, vin, newVin).1 != fs ==>
      LoadIndex(fs, CarsIndexFile).Ok? && Get(LoadIndex(fs, CarsIndexFile).value, newVin).None? &&
      Get(LoadIndex(fs, CarsIndexFile).value, vin).Some? &&
      CarAt(fs, Get(LoadIndex(fs, CarsIndexFile).value, vin).value).Ok?
  {
    match LoadIndex(fs, CarsIndexFile)
    case Fail(e) =>
    case Ok(carsIndex) =>
      if Get(carsIndex, newVin).None? {
        match Get(carsIndex, vin)
        case None =>
        case Some(offset) =>
          match CarAt(fs, offset)
          case Fail(e) =>
          case Ok(car) =>
      }
  }

  /** The car `update_vin` renames, and where it is. */
  lemma {:induction false} UpdateVinTarget(fs: FileSystem, vin: string, newVin: string) returns (carsIndex: Index, offset: nat, car: Car)
    requires UpdateVin(fs, vin, newVin).0.Ok?
    ensures LoadIndex(fs, CarsIndexFile) == Ok(carsIndex) && Get(carsIndex, newVin).None?
    ensures Get(carsIndex, vin) == Some(offset as int) && CarAt(fs, offset) == Ok(car)
    ensures CarsLog in fs && UpdateVin(fs, vin, newVin) == RenameCar(fs, carsIndex, vin, newVin, offset, car)
  {
    carsIndex := LoadIndex(fs, CarsIndexFile).value;
    offset := Get(carsIndex, vin).value as nat;
    car := CarAt(fs, offset).value;
  }

  /**
    A successful `update_vin(vin, new_vin)` returns the car under its new
    VIN, whose record now reads so at the same offset, and the cars index
    maps the new VIN to that offset, no longer knows the old one, and keeps
    every other entry. (A VIN with `':'` or a newline in it would not
    survive the index file; the lemma is stated for the VINs that do.)
   */
  lemma {:induction false} UpdateVinRenamesCar(fs: FileSystem, vin: string, newVin: string) returns (carsIndex: Index, offset: nat, car: Car)
    requires UpdateVin(fs, vin, newVin).0.Ok? && IsIndexKey(newVin)
    ensures LoadIndex(fs, CarsIndexFile) == Ok(carsIndex) && Get(carsIndex, vin) == Some(offset as int)
    ensures CarAt(fs, offset) == Ok(car)
    ensures UpdateVin(fs, vin, newVin).0 == Ok(car.(vin := newVin))
    ensures CarAt(UpdateVin(fs, vin, newVin).1, offset) == Ok(car.(vin := newVin))
    ensures LoadIndex(UpdateVin(fs, vin, newVin).1, CarsIndexFile).Ok?
    ensures forall k :: (Get(LoadIndex(UpdateVin(fs, vin, newVin).1, CarsIndexFile).value, k) ==
      if k == newVin then Some(offset as int) else if k == vin then None else Get(carsIndex, k))
  {
    carsIndex, offset, car := UpdateVinTarget(fs, vin, newVin);
    RenameCarRewritesCar(fs, carsIndex, vin, newVin, offset, car);
  }

  lemma {:induction false} RenameCarRewritesCar(fs: FileSystem, carsIndex: Index, vin: string, newVin: string, offset: nat, car: Car)
    requires CarsLog in fs && RenameCar(fs, carsIndex, vin, newVin, offset, car).0.Ok?
    requires LoadIndex(fs, CarsIndexFile) == Ok(carsIndex) && IsIndexKey(newVin)
    ensures RenameCar(fs, carsIndex, vin, newVin, offset, car).0 == Ok(car.(vin := newVin))
    ensures CarAt(RenameCar(fs, carsIndex, vin, newVin, offset, car).1, offset) == Ok(car.(vin := newVin))
    ensures LoadIndex(RenameCar(fs, carsIndex, vin, newVin, offset, car).1, CarsIndexFile) ==
      Ok(Rekeyed(carsIndex, vin, newVin, offset))
    ensures forall k :: (Get(Rekeyed(carsIndex, vin, newVin, offset), k) ==
      if k == newVin then Some(offset as int) else if k == vin then None else Get(carsIndex, k))
  {
    var renamed := car.(vin := newVin);
    var fs1 := Rewritten(fs, CarsLog, offset, EncodeCar(renamed));
    var fs2 := IndexWritten(fs1, CarsIndexFile, Rekeyed(carsIndex, vin, newVin, offset));
    var fs' := RenameCar(fs, carsIndex, vin, newVin, offset, car).1;
    assert fs'[CarsLog] == fs1[CarsLog] && fs'[CarsIndexFile] == fs2[CarsIndexFile];
    RewrittenReadsBack(fs, CarsLog, offset, EncodeCar(renamed));
    ReadWrittenCar(fs', offset, renamed);
    LoadedIndexKeys(fs, CarsIndexFile);
    RekeyedIndex(carsIndex, vin, newVin, offset);
    WrittenIndexReadsBack(fs1, CarsIndexFile, Rekeyed(carsIndex, vin, newVin, offset));
    assert LoadIndex(fs', CarsIndexFile) == LoadIndex(fs2, CarsIndexFile);
  }

  /**
    The sales side of a successful `update_vin(vin, new_vin)`. If the sales
    index does not know the old VIN, the sales log and its index are left
    as they were. If it does, the sale at that offset now reads with the
    new VIN, and the sales index maps the new VIN to that offset, no longer
    knows the old one, and keeps every other entry.
   */
  lemma {:induction false} UpdateVinMovesSale(fs: FileSystem, vin: string, newVin: string) returns (salesIndex: Index)
    requires UpdateVin(fs, vin, newVin).0.Ok? && IsIndexKey(newVin)
    ensures LoadIndex(fs, SalesIndexFile) == Ok(salesIndex)
    ensures Get(salesIndex, vin).None? ==>
      Contents(UpdateVin(fs, vin, newVin).1, SalesLog) == Contents(fs, SalesLog) &&
      LoadIndex(UpdateVin(fs, vin, newVin).1, SalesIndexFile) == Ok(salesIndex)
    ensures Get(salesIndex, vin).Some? ==>
      var saleOffset := Get(salesIndex, vin).value;
      SaleAt(fs, saleOffset).Ok? && saleOffset >= 0 &&
      SaleAt(UpdateVin(fs, vin, newVin).1, saleOffset) == Ok(SaleAt(fs, saleOffset).value.(carVin := newVin)) &&
      LoadIndex(UpdateVin(fs, vin, newVin).1, SalesIndexFile) == Ok(Rekeyed(salesIndex, vin, newVin, saleOffset))
    ensures LoadIndex(UpdateVin(fs, vin, newVin).1, SalesIndexFile).Ok?
    ensures forall k :: (Get(LoadIndex(UpdateVin(fs, vin, newVin).1, SalesIndexFile).value, k) ==
      if Get(salesIndex, vin).None? then Get(salesIndex, k)
      else if k == newVin then Get(salesIndex, vin) else if k == vin then None else Get(salesIndex, k))
  {
    var carsIndex, offset, car := UpdateVinTarget(fs, vin, newVin);
    salesIndex := RenameCarMovesSale(fs, carsIndex, vin, newVin, offset, car);
  }

  lemma {:induction false} RenameCarMovesSale(fs: FileSystem, carsIndex: Index, vin: string, newVin: string, offset: nat, car: Car)
    returns (salesIndex: Index)
    requires CarsLog in fs && RenameCar(fs, carsIndex, vin, newVin, offset, car).0.Ok? && IsIndexKey(newVin)
    ensures LoadIndex(fs, SalesIndexFile) == Ok(salesIndex)
    ensures Get(salesIndex, vin).None? ==>
      Contents(RenameCar(fs, carsIndex, vin, newVin, offset, car).1, SalesLog) == Contents(fs, SalesLog) &&
      LoadIndex(RenameCar(fs, carsIndex, vin, newVin, offset, car).1, SalesIndexFile) == Ok(salesIndex)
    ensures Get(salesIndex, vin).Some? ==>
      var saleOffset := Get(salesIndex, vin).value;
      SaleAt(fs, saleOffset).Ok? && saleOffset >= 0 &&
      SaleAt(RenameCar(fs, carsIndex, vin, newVin, offset, car).1, saleOffset) ==
        Ok(SaleAt(fs, saleOffset).value.(carVin := newVin)) &&
      LoadIndex(RenameCar(fs, carsIndex, vin, newVin, offset, car).1, SalesIndexFile) ==
        Ok(Rekeyed(salesIndex, vin, newVin, saleOffset))
    ensures LoadIndex(RenameCar(fs, carsIndex, vin, newVin, offset, car).1, SalesIndexFile).Ok?
    ensures forall k :: (Get(LoadIndex(RenameCar(fs, carsIndex, vin, newVin, offset, car).1, SalesIndexFile).value, k) ==
      if Get(salesIndex, vin).None? then Get(salesIndex, k)
      else if k == newVin then Get(salesIndex, vin) else if k == vin then None else Get(salesIndex, k))
  {
    var fs1 := Rewritten(fs, CarsLog, offset, EncodeCar(car.(vin := newVin)));
    var fs2 := IndexWritten(fs1, CarsIndexFile, Rekeyed(carsIndex, vin, newVin, offset));
    assert Contents(fs2, SalesLog) == Contents(fs, SalesLog);
    assert LoadIndex(fs2, SalesIndexFile) == LoadIndex(fs, SalesIndexFile);
    salesIndex := LoadIndex(fs, SalesIndexFile).value;
    if Get(salesIndex, vin).Some? {
      RenameCarRewritesSale(fs, carsIndex, vin, newVin, offset, car, salesIndex);
      LoadedIndexKeys(fs, SalesIndexFile);
      RekeyedIndex(salesIndex, vin, newVin, Get(salesIndex, vin).value);
    } else {
      assert RenameCar(fs, carsIndex, vin, newVin, offset, car).1 == fs2;
    }
  }

  /** The car has a sale: its line is rewritten with the new VIN and the sales index rekeyed. */
  lemma {:induction false} RenameCarRewritesSale(fs: FileSystem, carsIndex: Index, vin: string, newVin: string, offset: nat, car: Car,
    salesIndex: Index)
    requires CarsLog in fs && RenameCar(fs, carsIndex, vin, newVin, offset, car).0.Ok? && IsIndexKey(newVin)
    requires LoadIndex(fs, SalesIndexFile) == Ok(salesIndex) && Get(salesIndex, vin).Some?
    ensures var saleOffset := Get(salesIndex, vin).value;
      SaleAt(fs, saleOffset).Ok? && saleOffset >= 0 &&
      SaleAt(RenameCar(fs, carsIndex, vin, newVin, offset, car).1, saleOffset) ==
        Ok(SaleAt(fs, saleOffset).value.(carVin := newVin)) &&
      LoadIndex(RenameCar(fs, carsIndex, vin, newVin, offset, car).1, SalesIndexFile) ==
        Ok(Rekeyed(salesIndex, vin, newVin, saleOffset))
  {
    var fs1 := Rewritten(fs, CarsLog, offset, EncodeCar(car.(vin := newVin)));
    var fs2 := IndexWritten(fs1, CarsIndexFile, Rekeyed(carsIndex, vin, newVin, offset));
    var fs' := RenameCar(fs, carsIndex, vin, newVin, offset, car).1;
    assert Contents(fs2, SalesLog) == Contents(fs, SalesLog);
    assert LoadIndex(fs2, SalesIndexFile) == LoadIndex(fs, SalesIndexFile);
    var saleOffset := Get(salesIndex, vin).value;
    assert SaleAt(fs2, saleOffset) == SaleAt(fs, saleOffset);
    LoadedIndexKeys(fs, SalesIndexFile);
    MovedSaleReadsBack(fs2, salesIndex, vin, newVin, saleOffset, SaleAt(fs, saleOffset).value);
  }

  /** Rewriting the sale at `saleOffset` under the new VIN and rekeying the sales index, then reading both back. */
  lemma {:induction false} MovedSaleReadsBack(fs: FileSystem, salesIndex: Index, vin: string, newVin: string, saleOffset: nat, sale: Sale)
    requires SalesLog in fs && Distinct(salesIndex) && AllIndexKeys(salesIndex) && IsIndexKey(newVin)
    ensures var fs' := IndexWritten(Rewritten(fs, SalesLog, saleOffset, EncodeSale(sale.(carVin := newVin))), SalesIndexFile,
        Rekeyed(salesIndex, vin, newVin, saleOffset));
      SaleAt(fs', saleOffset) == Ok(sale.(carVin := newVin)) &&
      LoadIndex(fs', SalesIndexFile) == Ok(Rekeyed(salesIndex, vin, newVin, saleOffset))
  {
    var moved := sale.(carVin := newVin);
    var fs3 := Rewritten(fs, SalesLog, saleOffset, EncodeSale(moved));
    var fs' := IndexWritten(fs3, SalesIndexFile, Rekeyed(salesIndex, vin, newVin, saleOffset));
    RewrittenReadsBack(fs, SalesLog, saleOffset, EncodeSale(moved));
    assert fs'[SalesLog] == fs3[SalesLog];
    ReadWrittenSale(fs', saleOffset, moved);
    RekeyedIndex(salesIndex, vin, newVin, saleOffset);
    WrittenIndexReadsBack(fs3, SalesIndexFile, Rekeyed(salesIndex, vin, newVin, saleOffset));
  }

  // ---- revert_sale ----------------------------------------------------------------------

  /** `position` starts the first line of the log that holds `sale`, a sale with this number. */
  predicate FirstSaleMatch(content: string, salesNumber: string, position: nat, sale: Sale) {
    position < |content| && IsLineStart(content, position) &&
    SaleNumbered(salesNumber, LineAt(content, position)) == Some(sale) && sale.salesNumber == salesNumber &&
    NonePicked(content, SalePicker(salesNumber), 0, position)
  }

  /**
    The scan of `revert_sale` finds nothing exactly when no line of the log
    decodes to a sale with the number, and otherwise finds the first one.
   */
  lemma {:induction false} FindSaleFirst(content: string, salesNumber: string)
    ensures FindSale(content, salesNumber).None? <==> NonePicked(content, SalePicker(salesNumber), 0, |content|)
    ensures FindSale(content, salesNumber).Some? ==>
      FirstSaleMatch(content, salesNumber, FindSale(content, salesNumber).value.1, FindSale(content, salesNumber).value.0)
  {
    FirstPickedIsFirst(content, SalePicker(salesNumber), 0);
  }

  /**
    `revert_sale(sales_number)` raises for a missing sales log, and refuses
    a number that no line of the log holds; in both cases it writes
    nothing.
   */
  lemma {:induction false} RevertSaleRefusals(fs: FileSystem, salesNumber: string)
    ensures SalesLog !in fs ==> RevertSale(fs, salesNumber) == (Fail(FileMissing(SalesLog)), fs)
    ensures RevertSale(fs, salesNumber).0 == Fail(SaleNotFound(salesNumber)) <==>
      SalesLog in fs && NonePicked(fs[SalesLog], SalePicker(salesNumber), 0, |fs[SalesLog]|)
    ensures RevertSale(fs, salesNumber).0 == Fail(SaleNotFound(salesNumber)) ==> RevertSale(fs, salesNumber).1 == fs
  {
    RevertSaleUnknown(fs, salesNumber);
    RevertSaleUnknownKeeps(fs, salesNumber);
  }

  lemma {:induction false} RevertSaleUnknown(fs: FileSystem, salesNumber: string)
    ensures RevertSale(fs, salesNumber).0 == Fail(SaleNotFound(salesNumber)) <==>
      SalesLog in fs && NonePicked(fs[SalesLog], SalePicker(salesNumber), 0, |fs[SalesLog]|)
  {
    if SalesLog in fs {
      FindSaleFirst(fs[SalesLog], salesNumber);
      match FindSale(fs[SalesLog], salesNumber)
      case None =>
      case Some(found) =>
        match LoadIndex(fs, SalesIndexFile)
        case Fail(e) =>
          assert e.BadOffset?;
        case Ok(salesIndex) =>
          var r := RestoreCar(DropSaleEntry(fs, salesIndex, found.0.carVin, found.1), found.0.carVin);
          assert RevertSale(fs, salesNumber) == r;
          assert r.0.Fail? ==> IsReadFailure(r.0.error) || r.0.error == CarNotFound(found.0.carVin);
    }
  }

  lemma {:induction false} RevertSaleUnknownKeeps(fs: FileSystem, salesNumber: string)
    ensures RevertSale(fs, salesNumber).0 == Fail(SaleNotFound(salesNumber)) ==> RevertSale(fs, salesNumber).1 == fs
  {
    if SalesLog in fs {
      match FindSale(fs[SalesLog], salesNumber)
      case None =>
      case Some(found) =>
        match LoadIndex(fs, SalesIndexFile)
        case Fail(e) =>
        case Ok(salesIndex) =>
          var r := RestoreCar(DropSaleEntry(fs, salesIndex, found.0.carVin, found.1), found.0.carVin);
          assert RevertSale(fs, salesNumber) == r;
          assert r.0.Fail? ==> IsReadFailure(r.0.error) || r.0.error == CarNotFound(found.0.carVin);
    }
  }

  /**
    Once `revert_sale(sales_number)` has found the first sale with that
    number and read the sales index, it deletes the sale's VIN from the
    index only if the entry points at that very line; the sale line itself
    stays in the log. This holds whatever happens next, even when the car
    is then not found.
   */
  lemma {:induction false} RevertSaleDropsEntry(fs: FileSystem, salesNumber: string) returns (position: nat, sale: Sale, salesIndex: Index)
    requires SalesLog in fs && !NonePicked(fs[SalesLog], SalePicker(salesNumber), 0, |fs[SalesLog]|)
    requires LoadIndex(fs, SalesIndexFile).Ok?
    ensures FirstSaleMatch(fs[SalesLog], salesNumber, position, sale)
    ensures FindSale(fs[SalesLog], salesNumber) == Some((sale, position))
    ensures LoadIndex(fs, SalesIndexFile) == Ok(salesIndex)
    ensures Contents(RevertSale(fs, salesNumber).1, SalesLog) == fs[SalesLog]
    ensures LoadIndex(RevertSale(fs, salesNumber).1, SalesIndexFile) ==
      Ok(if Get(salesIndex, sale.carVin) == Some(position as int) then Delete(salesIndex, sale.carVin) else salesIndex)
    ensures RevertSale(fs, salesNumber).0 == Fail(CarNotFound(sale.carVin)) <==>
      LoadIndex(fs, CarsIndexFile).Ok? && Get(LoadIndex(fs, CarsIndexFile).value, sale.carVin).None?
  {
    FindSaleFirst(fs[SalesLog], salesNumber);
    position, sale, salesIndex := RevertSaleSteps(fs, salesNumber);
    DropSaleEntryIndex(fs, salesIndex, sale.carVin, position);
    DropSaleEntryKeeps(fs, salesIndex, sale.carVin, position);
    var fs1 := DropSaleEntry(fs, salesIndex, sale.carVin, position);
    RestoreCarKeeps(fs1, sale.carVin);
    RestoreCarNotFound(fs1, sale.carVin);
  }

  /** Dropping the entry writes the sales index without it, when it points at `position`. */
  lemma {:induction false} DropSaleEntryIndex(fs: FileSystem, salesIndex: Index, vin: string, position: nat)
    requires LoadIndex(fs, SalesIndexFile) == Ok(salesIndex)
    ensures LoadIndex(DropSaleEntry(fs, salesIndex, vin, position), SalesIndexFile) ==
      Ok(if Get(salesIndex, vin) == Some(position as int) then Delete(salesIndex, vin) else salesIndex)
  {
    LoadedIndexKeys(fs, SalesIndexFile);
    if Get(salesIndex, vin) == Some(position as int) {
      DeleteIndexKeys(salesIndex, vin);
      WrittenIndexReadsBack(fs, SalesIndexFile, Delete(salesIndex, vin));
    }
  }

  /** Dropping the entry touches only the sales index. */
  lemma {:induction false} DropSaleEntryKeeps(fs: FileSystem, salesIndex: Index, vin: string, position: nat)
    ensures forall name :: name != SalesIndexFile ==>
      (name in DropSaleEntry(fs, salesIndex, vin, position) <==> name in fs) &&
      (name in fs ==> DropSaleEntry(fs, salesIndex, vin, position)[name] == fs[name])
  {
  }

  /** Restoring the car touches only the cars log. */
  lemma {:induction false} RestoreCarKeeps(fs: FileSystem, vin: string)
    ensures forall name :: name != CarsLog ==>
      (name in RestoreCar(fs, vin).1 <==> name in fs) && (name in fs ==> RestoreCar(fs, vin).1[name] == fs[name])
    ensures LoadIndex(RestoreCar(fs, vin).1, SalesIndexFile) == LoadIndex(fs, SalesIndexFile)
    ensures LoadIndex(RestoreCar(fs, vin).1, CarsIndexFile) == LoadIndex(fs, CarsIndexFile)
  {
    RestoreCarFrame(fs, vin);
    assert LoadIndex(RestoreCar(fs, vin).1, SalesIndexFile) == LoadIndex(fs, SalesIndexFile);
  }

  lemma {:induction false} RestoreCarFrame(fs: FileSystem, vin: string)
    ensures forall name :: name != CarsLog ==>
      (name in RestoreCar(fs, vin).1 <==> name in fs) && (name in fs ==> RestoreCar(fs, vin).1[name] == fs[name])
  {
  }

  lemma {:induction false} RestoreCarNotFound(fs: FileSystem, vin: string)
    ensures RestoreCar(fs, vin).0 == Fail(CarNotFound(vin)) <==>
      LoadIndex(fs, CarsIndexFile).Ok? && Get(LoadIndex(fs, CarsIndexFile).value, vin).None?
  {
  }

  /**
    A successful `revert_sale(sales_number)` returns the car of the first
    sale with that number, marked available, and that car's record at its
    indexed offset now reads so; the cars index is unchanged.
   */
  lemma {:induction false} RevertSaleRestoresCar(fs: FileSystem, salesNumber: string) returns (position: nat, sale: Sale, offset: nat, car: Car)
    requires RevertSale(fs, salesNumber).0.Ok?
    ensures SalesLog in fs && FirstSaleMatch(fs[SalesLog], salesNumber, position, sale)
    ensures FindSale(fs[SalesLog], salesNumber) == Some((sale, position))
    ensures LoadIndex(fs, CarsIndexFile).Ok? && Get(LoadIndex(fs, CarsIndexFile).value, sale.carVin) == Some(offset as int)
    ensures CarAt(fs, offset) == Ok(car)
    ensures RevertSale(fs, salesNumber).0 == Ok(car.(status := Available))
    ensures CarAt(RevertSale(fs, salesNumber).1, offset) == Ok(car.(status := Available))
    ensures LoadIndex(RevertSale(fs, salesNumber).1, CarsIndexFile) == LoadIndex(fs, CarsIndexFile)
    ensures CarsLog in fs && CarsLog in RevertSale(fs, salesNumber).1
    ensures RevertSale(fs, salesNumber).1[CarsLog] == Overwrite(fs[CarsLog], offset, EncodeCar(car.(status := Available)) + "\n")
  {
    RevertSaleReads(fs, salesNumber);
    var salesIndex;
    position, sale, salesIndex := RevertSaleSteps(fs, salesNumber);
    var fs1 := DropSaleEntry(fs, salesIndex, sale.carVin, position);
    assert LoadIndex(fs1, CarsIndexFile) == LoadIndex(fs, CarsIndexFile);
    assert CarsLog in fs1 && fs1[CarsLog] == fs[CarsLog];
    offset, car := RestoreCarRewrites(fs1, sale.carVin);
    assert CarAt(fs1, offset) == CarAt(fs, offset);
  }

  /** A `revert_sale` that returns a car found its sale and read the sales index. */
  lemma {:induction false} RevertSaleReads(fs: FileSystem, salesNumber: string)
    requires RevertSale(fs, salesNumber).0.Ok?
    ensures SalesLog in fs && FindSale(fs[SalesLog], salesNumber).Some? && LoadIndex(fs, SalesIndexFile).Ok?
  {
  }

  /** Past the scan and the sales index read, `revert_sale` drops the entry and restores the car. */
  lemma {:induction false} RevertSaleSteps(fs: FileSystem, salesNumber: string) returns (position: nat, sale: Sale, salesIndex: Index)
    requires SalesLog in fs && FindSale(fs[SalesLog], salesNumber).Some? && LoadIndex(fs, SalesIndexFile).Ok?
    ensures FirstSaleMatch(fs[SalesLog], salesNumber, position, sale)
    ensures FindSale(fs[SalesLog], salesNumber) == Some((sale, position))
    ensures LoadIndex(fs, SalesIndexFile) == Ok(salesIndex)
    ensures RevertSale(fs, salesNumber) == RestoreCar(DropSaleEntry(fs, salesIndex, sale.carVin, position), sale.carVin)
  {
    FindSaleFirst(fs[SalesLog], salesNumber);
    var found := FindSale(fs[SalesLog], salesNumber).value;
    position, sale := found.1, found.0;
    salesIndex := LoadIndex(fs, SalesIndexFile).value;
  }

  lemma {:induction false} RestoreCarRewrites(fs: FileSystem, vin: string) returns (offset: nat, car: Car)
    requires RestoreCar(fs, vin).0.Ok?
    ensures LoadIndex(fs, CarsIndexFile).Ok? && Get(LoadIndex(fs, CarsIndexFile).value, vin) == Some(offset as int)
    ensures CarAt(fs, offset) == Ok(car)
    ensures RestoreCar(fs, vin).0 == Ok(car.(status := Available))
    ensures CarAt(RestoreCar(fs, vin).1, offset) == Ok(car.(status := Available))
    ensures LoadIndex(RestoreCar(fs, vin).1, CarsIndexFile) == LoadIndex(fs, CarsIndexFile)
    ensures CarsLog in fs && CarsLog in RestoreCar(fs, vin).1
    ensures RestoreCar(fs, vin).1[CarsLog] == Overwrite(fs[CarsLog], offset, EncodeCar(car.(status := Available)) + "\n")
  {
    offset := Get(LoadIndex(fs, CarsIndexFile).value, vin).value as nat;
    car := CarAt(fs, offset).value;
    var available := car.(status := Available);
    assert RestoreCar(fs, vin) == (Ok(available), Rewritten(fs, CarsLog, offset, EncodeCar(available)));
    RewrittenReadsBack(fs, CarsLog, offset, EncodeCar(available));
    ReadWrittenCar(Rewritten(fs, CarsLog, offset, EncodeCar(available)), offset, available);
  }

  // ---- rewriting in place ---------------------------------------------------------------

  /** The line at `offset` holds exactly `record` and its newline, as the service writes it. */
  predicate HoldsExactly(content: string, offset: nat, record: string) {
    IsLineStart(content, offset) && LineAt(content, offset) == record + "\n"
  }

  /**
    Selling rewrites the car's line in place with one no longer than it (the
    status name `sold` is the shortest), so when that line holds exactly
    the car's encoding, as `add_car` writes it, every other line of the cars
    log reads as before.
   */
  lemma {:induction false} SellCarKeepsOtherCars(fs: FileSystem, sale: Sale) returns (offset: nat, car: Car)
    requires SellCar(fs, sale).0.Ok?
    ensures LoadIndex(fs, CarsIndexFile).Ok? && Get(LoadIndex(fs, CarsIndexFile).value, sale.carVin) == Some(offset as int)
    ensures CarAt(fs, offset) == Ok(car)
    ensures CarsLog in fs && CarsLog in SellCar(fs, sale).1
    ensures HoldsExactly(fs[CarsLog], offset, EncodeCar(car)) ==>
      forall q: nat :: IsLineStart(fs[CarsLog], q) && q != offset ==>
        LineAt(SellCar(fs, sale).1[CarsLog], q) == LineAt(fs[CarsLog], q)
  {
    offset, car := SellCarTarget(fs, sale);
    var line := EncodeCar(car.(status := Sold)) + "\n";
    RecordSaleCarsLog(fs, sale, offset, car);
    if HoldsExactly(fs[CarsLog], offset, EncodeCar(car)) {
      SoldIsNotLonger(car);
      OverwriteFitsKeepsLines(fs[CarsLog], offset, line);
    }
  }

  /** Past the rewrite of the car, `sell_car` only touches the sales log and its index. */
  lemma {:induction false} RecordSaleCarsLog(fs: FileSystem, sale: Sale, offset: nat, car: Car)
    requires CarsLog in fs
    ensures CarsLog in RecordSale(fs, sale, offset, car).1
    ensures RecordSale(fs, sale, offset, car).1[CarsLog] == Overwrite(fs[CarsLog], offset, EncodeCar(car.(status := Sold)) + "\n")
    ensures IsTerminatedLine(EncodeCar(car.(status := Sold)) + "\n")
  {
    RecordLineTerminated(EncodeCar(car.(status := Sold)));
  }

  /**
    Reverting a sale rewrites the car's line in place, five characters
    longer than a `sold` record (`available` against `sold`). A car that
    `add_car` wrote as available and `sell_car` then marked sold comes back
    character for character (`SellThenRevertLine`): the shorter `sold` line
    left the tail of the old record in place. But when the line held exactly
    the encoding of a sold car (one added as sold, or whose earlier revert
    already lengthened it) and another line follows, that next line no
    longer begins where it did, so the record there is lost to every read
    at its offset; a car sold from `reserved` comes back one character
    longer and clobbers the next line the same way.
   */
  lemma {:induction false} RevertSaleInPlace(fs: FileSystem, salesNumber: string) returns (offset: nat, car: Car)
    requires RevertSale(fs, salesNumber).0.Ok?
    ensures LoadIndex(fs, CarsIndexFile).Ok? && CarAt(fs, offset) == Ok(car)
    ensures RevertSale(fs, salesNumber).0 == Ok(car.(status := Available))
    ensures CarsLog in fs && CarsLog in RevertSale(fs, salesNumber).1
    ensures (IsLineStart(fs[CarsLog], offset) &&
             |EncodeCar(car.(status := Available))| < |LineAt(fs[CarsLog], offset)|) ==>
      forall q: nat :: IsLineStart(fs[CarsLog], q) && q != offset ==>
        LineAt(RevertSale(fs, salesNumber).1[CarsLog], q) == LineAt(fs[CarsLog], q)
    ensures var next := offset + |EncodeCar(car)| + 1;
      (HoldsExactly(fs[CarsLog], offset, EncodeCar(car)) && car.status == Sold && next < |fs[CarsLog]|) ==>
        IsLineStart(fs[CarsLog], next) && !IsLineStart(RevertSale(fs, salesNumber).1[CarsLog], next)
  {
    var position, sale;
    position, sale, offset, car := RevertSaleRestoresCar(fs, salesNumber);
    RewriteCarLine(fs[CarsLog], offset, car, Available);
  }

  /**
    Rewriting a car's line with a new status: other lines survive when the
    new line fits in the old one, and the line after a sold car's exact
    encoding is destroyed when the car becomes available.
   */
  lemma {:induction false} RewriteCarLine(content: string, offset: nat, car: Car, status: CarStatus)
    ensures (IsLineStart(content, offset) && |EncodeCar(car.(status := status))| < |LineAt(content, offset)|) ==>
      forall q: nat :: IsLineStart(content, q) && q != offset ==>
        LineAt(Overwrite(content, offset, EncodeCar(car.(status := status)) + "\n"), q) == LineAt(content, q)
    ensures var next := offset + |EncodeCar(car)| + 1;
      (HoldsExactly(content, offset, EncodeCar(car)) && car.status == Sold && status == Available && next < |content|) ==>
        IsLineStart(content, next) && !IsLineStart(Overwrite(content, offset, EncodeCar(car.(status := status)) + "\n"), next)
  {
    RewriteRecordFits(content, offset, EncodeCar(car.(status := status)));
    RevertClobbersNext(content, offset, car, status);
  }

  lemma {:induction false} RevertClobbersNext(content: string, offset: nat, car: Car, status: CarStatus)
    ensures var next := offset + |EncodeCar(car)| + 1;
      (HoldsExactly(content, offset, EncodeCar(car)) && car.status == Sold && status == Available && next < |content|) ==>
        IsLineStart(content, next) && !IsLineStart(Overwrite(content, offset, EncodeCar(car.(status := status)) + "\n"), next)
  {
    if car.status == Sold && status == Available {
      AvailableIsLonger(car);
    }
    RewriteRecordLonger(content, offset, EncodeCar(car), EncodeCar(car.(status := status)));
  }

  /**
    Selling a car that was added as available and then reverting the sale
    puts its line back exactly: the `sold` record is shorter, so the tail
    of the original line is still there for the `available` record to
    cover again.
   */
  lemma {:induction false} SellThenRevertLine(content: string, offset: nat, car: Car)
    requires car.status == Available && HoldsExactly(content, offset, EncodeCar(car))
    ensures var sold := car.(status := Sold);
      Overwrite(Overwrite(content, offset, EncodeCar(sold) + "\n"), offset, EncodeCar(sold.(status := Available)) + "\n") == content
  {
    var sold := car.(status := Sold);
    assert sold.(status := Available) == car;
    assert offset < |content|;
    LineAtShape(content, offset);
    StatusChangeLength(car, Sold);
    OverwriteUndone(content, offset, EncodeCar(sold) + "\n", EncodeCar(car) + "\n");
  }

  /** Putting a sold car back on sale lengthens its record: `available` is longer than `sold`. */
  lemma {:induction false} AvailableIsLonger(car: Car)
    requires car.status == Sold
    ensures |EncodeCar(car)| < |EncodeCar(car.(status := Available))|
  {
    StatusChangeLength(car, Available);
  }

  /**
    `update_vin` rewrites the car's line in place too: when the renamed
    line fits in the old one every other line of the cars log reads as
    before; a longer VIN makes a longer line, with the hazard shown for
    `revert_sale`.
   */
  lemma {:induction false} UpdateVinInPlace(fs: FileSystem, vin: string, newVin: string) returns (offset: nat, car: Car)
    requires UpdateVin(fs, vin, newVin).0.Ok?
    ensures LoadIndex(fs, CarsIndexFile).Ok? && Get(LoadIndex(fs, CarsIndexFile).value, vin) == Some(offset as int)
    ensures CarAt(fs, offset) == Ok(car)
    ensures CarsLog in fs && CarsLog in UpdateVin(fs, vin, newVin).1
    ensures (IsLineStart(fs[CarsLog], offset) && |EncodeCar(car.(vin := newVin))| < |LineAt(fs[CarsLog], offset)|) ==>
      forall q: nat :: IsLineStart(fs[CarsLog], q) && q != offset ==>
        LineAt(UpdateVin(fs, vin, newVin).1[CarsLog], q) == LineAt(fs[CarsLog], q)
  {
    var carsIndex;
    carsIndex, offset, car := UpdateVinTarget(fs, vin, newVin);
    RenameCarCarsLog(fs, carsIndex, vin, newVin, offset, car);
    RewriteRecordFits(fs[CarsLog], offset, EncodeCar(car.(vin := newVin)));
  }

  /** Past the rewrite of the car, `update_vin` leaves the cars log alone. */
  lemma {:induction false} RenameCarCarsLog(fs: FileSystem, carsIndex: Index, vin: string, newVin: string, offset: nat, car: Car)
    requires CarsLog in fs
    ensures CarsLog in RenameCar(fs, carsIndex, vin, newVin, offset, car).1
    ensures RenameCar(fs, carsIndex, vin, newVin, offset, car).1[CarsLog] ==
      Overwrite(fs[CarsLog], offset, EncodeCar(car.(vin := newVin)) + "\n")
  {
  }

  /** A record rewritten at a line start where it fits keeps every other line. */
  lemma {:induction false} RewriteRecordFits(content: string, offset: nat, record: string)
    requires IsRecordLine(record)
    ensures (IsLineStart(content, offset) && |record| < |LineAt(content, offset)|) ==>
      forall q: nat :: IsLineStart(content, q) && q != offset ==>
        LineAt(Overwrite(content, offset, record + "\n"), q) == LineAt(content, q)
  {
    RecordLineTerminated(record);
    if IsLineStart(content, offset) && |record| < |LineAt(content, offset)| {
      OverwriteFitsKeepsLines(content, offset, record + "\n");
    }
  }

  /**
    A longer record rewritten over a line that held exactly `held` runs
    into the next line: that line no longer starts where it did.
   */
  lemma {:induction false} RewriteRecordLonger(content: string, offset: nat, held: string, record: string)
    requires IsRecordLine(record)
    ensures var next := offset + |held| + 1;
      (HoldsExactly(content, offset, held) && |held| < |record| && next < |content|) ==>
        IsLineStart(content, next) && !IsLineStart(Overwrite(content, offset, record + "\n"), next)
  {
    if HoldsExactly(content, offset, held) && |held| < |record| && offset + |held| + 1 < |content| {
      RecordLineTerminated(record);
      OverwriteLongerClobbersNext(content, offset, record + "\n");
    }
  }

  /**
    When the car was sold, `update_vin` rewrites its sale line in place as
    well, with the hazard of the car line: a renamed sale line that fits
    keeps every other line of the sales log, and a longer one written over
    a line that held exactly the sale's encoding destroys the start of the
    line after it.
   */
  lemma {:induction false} UpdateVinSalesInPlace(fs: FileSystem, vin: string, newVin: string) returns (saleOffset: nat, sale: Sale)
    requires UpdateVin(fs, vin, newVin).0.Ok?
    requires LoadIndex(fs, SalesIndexFile).Ok? && Get(LoadIndex(fs, SalesIndexFile).value, vin).Some?
    ensures Get(LoadIndex(fs, SalesIndexFile).value, vin) == Some(saleOffset as int) && SaleAt(fs, saleOffset) == Ok(sale)
    ensures SalesLog in fs && SalesLog in UpdateVin(fs, vin, newVin).1
    ensures UpdateVin(fs, vin, newVin).1[SalesLog] ==
      Overwrite(fs[SalesLog], saleOffset, EncodeSale(sale.(carVin := newVin)) + "\n")
    ensures (IsLineStart(fs[SalesLog], saleOffset) &&
             |EncodeSale(sale.(carVin := newVin))| < |LineAt(fs[SalesLog], saleOffset)|) ==>
      forall q: nat :: IsLineStart(fs[SalesLog], q) && q != saleOffset ==>
        LineAt(UpdateVin(fs, vin, newVin).1[SalesLog], q) == LineAt(fs[SalesLog], q)
    ensures var next := saleOffset + |EncodeSale(sale)| + 1;
      (HoldsExactly(fs[SalesLog], saleOffset, EncodeSale(sale)) &&
       |EncodeSale(sale)| < |EncodeSale(sale.(carVin := newVin))| && next < |fs[SalesLog]|) ==>
        IsLineStart(fs[SalesLog], next) && !IsLineStart(UpdateVin(fs, vin, newVin).1[SalesLog], next)
  {
    var carsIndex, offset, car := UpdateVinTarget(fs, vin, newVin);
    saleOffset, sale := RenameCarSalesLog(fs, carsIndex, vin, newVin, offset, car);
    RewriteSaleLine(fs[SalesLog], saleOffset, sale, newVin);
  }

  /** Renaming a sale line in place: what fits keeps the other lines, what is longer clobbers the next. */
  lemma {:induction false} RewriteSaleLine(content: string, offset: nat, sale: Sale, newVin: string)
    ensures (IsLineStart(content, offset) && |EncodeSale(sale.(carVin := newVin))| < |LineAt(content, offset)|) ==>
      forall q: nat :: IsLineStart(content, q) && q != offset ==>
        LineAt(Overwrite(content, offset, EncodeSale(sale.(carVin := newVin)) + "\n"), q) == LineAt(content, q)
    ensures var next := offset + |EncodeSale(sale)| + 1;
      (HoldsExactly(content, offset, EncodeSale(sale)) &&
       |EncodeSale(sale)| < |EncodeSale(sale.(carVin := newVin))| && next < |content|) ==>
        IsLineStart(content, next) && !IsLineStart(Overwrite(content, offset, EncodeSale(sale.(carVin := newVin)) + "\n"), next)
  {
    var record := EncodeSale(sale.(carVin := newVin));
    RewriteRecordFits(content, offset, record);
    RewriteRecordLonger(content, offset, EncodeSale(sale), record);
  }

  /** Past the rewrite of the car, a sold car's sale line is rewritten in the sales log. */
  lemma {:induction false} RenameCarSalesLog(fs: FileSystem, carsIndex: Index, vin: string, newVin: string, offset: nat, car: Car)
    returns (saleOffset: nat, sale: Sale)
    requires CarsLog in fs && RenameCar(fs, carsIndex, vin, newVin, offset, car).0.Ok?
    requires LoadIndex(fs, SalesIndexFile).Ok? && Get(LoadIndex(fs, SalesIndexFile).value, vin).Some?
    ensures Get(LoadIndex(fs, SalesIndexFile).value, vin) == Some(saleOffset as int) && SaleAt(fs, saleOffset) == Ok(sale)
    ensures SalesLog in fs && SalesLog in RenameCar(fs, carsIndex, vin, newVin, offset, car).1
    ensures RenameCar(fs, carsIndex, vin, newVin, offset, car).1[SalesLog] ==
      Overwrite(fs[SalesLog], saleOffset, EncodeSale(sale.(carVin := newVin)) + "\n")
  {
    var fs1 := Rewritten(fs, CarsLog, offset, EncodeCar(car.(vin := newVin)));
    var fs2 := IndexWritten(fs1, CarsIndexFile, Rekeyed(carsIndex, vin, newVin, offset));
    assert LoadIndex(fs2, SalesIndexFile) == LoadIndex(fs, SalesIndexFile);
    var position := Get(LoadIndex(fs, SalesIndexFile).value, vin).value;
    assert SaleAt(fs2, position) == SaleAt(fs, position);
    saleOffset := position as nat;
    sale := SaleAt(fs, saleOffset).value;
  }

  // ---- what each write leaves alone ---------------------------------------------------

  /** The file is missing from both directories, or holds the same text in both. */
  predicate SameFile(fs: FileSystem, fs': FileSystem, name: FileName) {
    (name in fs <==> name in fs') && (name in fs ==> fs'[name] == fs[name])
  }

  /** The models log and the models index, which only `add_model` writes, are as they were. */
  predicate SameModels(fs: FileSystem, fs': FileSystem) {
    SameFile(fs, fs', ModelsLog) && SameFile(fs, fs', ModelsIndexFile)
  }

  /**
    Whatever its outcome, `sell_car` writes only the cars log, the sales
    log and the sales index, and it only appends the sale to the sales log.
   */
  lemma {:induction false} SellCarFrame(fs: FileSystem, sale: Sale)
    ensures SameModels(fs, SellCar(fs, sale).1) && SameFile(fs, SellCar(fs, sale).1, CarsIndexFile)
    ensures Contents(SellCar(fs, sale).1, SalesLog) == Contents(fs, SalesLog) ||
      Contents(SellCar(fs, sale).1, SalesLog) == Contents(fs, SalesLog) + EncodeSale(sale) + "\n"
  {
    if SellCar(fs, sale).1 != fs {
      SellCarRefusals(fs, sale);
      var offset := Get(LoadIndex(fs, CarsIndexFile).value, sale.carVin).value as nat;
      var car := CarAt(fs, offset).value;
      assert SellCar(fs, sale) == RecordSale(fs, sale, offset, car);
      RecordSaleFrame(fs, sale, offset, car);
    }
  }

  lemma {:induction false} RecordSaleFrame(fs: FileSystem, sale: Sale, offset: nat, car: Car)
    requires CarsLog in fs
    ensures SameModels(fs, RecordSale(fs, sale, offset, car).1) && SameFile(fs, RecordSale(fs, sale, offset, car).1, CarsIndexFile)
    ensures Contents(RecordSale(fs, sale, offset, car).1, SalesLog) == Contents(fs, SalesLog) + EncodeSale(sale) + "\n"
  {
    var fs1 := Rewritten(fs, CarsLog, offset, EncodeCar(car.(status := Sold)));
    var fs2 := Appended(fs1, SalesLog, EncodeSale(sale));
    assert Contents(fs1, SalesLog) == Contents(fs, SalesLog);
    var r := RecordSale(fs, sale, offset, car).1;
    assert r == fs2 || r == IndexWritten(fs2, SalesIndexFile, Put(LoadIndex(fs2, SalesIndexFile).value, sale.carVin, |Contents(fs1, SalesLog)|));
    assert r[SalesLog] == fs2[SalesLog];
  }

  /**
    Earlier sales survive `sell_car`: every offset of the old sales log
    reads what it read before, as long as the log ended with a newline.
   */
  lemma {:induction false} SellCarKeepsSales(fs: FileSystem, sale: Sale)
    requires EndsWithNewline(Contents(fs, SalesLog))
    ensures forall q: nat :: q < |Contents(fs, SalesLog)| ==> SaleAt(SellCar(fs, sale).1, q) == SaleAt(fs, q)
  {
    SellCarFrame(fs, sale);
    forall q: nat | q < |Contents(fs, SalesLog)| ensures SaleAt(SellCar(fs, sale).1, q) == SaleAt(fs, q) {
      AppendKeepsSale(fs, SellCar(fs, sale).1, EncodeSale(sale) + "\n", q);
    }
  }

  /** A sales log that only grew past a newline reads the same sale at each old offset. */
  lemma {:induction false} AppendKeepsSale(fs: FileSystem, fs': FileSystem, extra: string, q: nat)
    requires EndsWithNewline(Contents(fs, SalesLog)) && q < |Contents(fs, SalesLog)|
    requires Contents(fs', SalesLog) == Contents(fs, SalesLog) || Contents(fs', SalesLog) == Contents(fs, SalesLog) + extra
    ensures SaleAt(fs', q) == SaleAt(fs, q)
  {
    if Contents(fs', SalesLog) != Contents(fs, SalesLog) {
      AppendKeepsLine(Contents(fs, SalesLog), extra, q);
    }
    assert SalesLog in fs && SalesLog in fs';
  }

  /** `sell_car` keeps both logs ending with a newline, as `SellCarKeepsSales` asks. */
  lemma {:induction false} SellCarEndsLines(fs: FileSystem, sale: Sale)
    requires EndsWithNewline(Contents(fs, CarsLog)) && EndsWithNewline(Contents(fs, SalesLog))
    ensures EndsWithNewline(Contents(SellCar(fs, sale).1, CarsLog))
    ensures EndsWithNewline(Contents(SellCar(fs, sale).1, SalesLog))
  {
    SellCarFrame(fs, sale);
    if SellCar(fs, sale).1 != fs {
      SellCarRefusals(fs, sale);
      var offset := Get(LoadIndex(fs, CarsIndexFile).value, sale.carVin).value as nat;
      var car := CarAt(fs, offset).value;
      RecordSaleCarsLog(fs, sale, offset, car);
      OverwriteEndsWithNewline(fs[CarsLog], offset, EncodeCar(car.(status := Sold)) + "\n");
    }
  }

  /** Whatever its outcome, `update_vin` leaves the models log and the models index alone. */
  lemma {:induction false} UpdateVinFrame(fs: FileSystem, vin: string, newVin: string)
    ensures SameModels(fs, UpdateVin(fs, vin, newVin).1)
  {
    if UpdateVin(fs, vin, newVin).1 != fs {
      UpdateVinRefusals(fs, vin, newVin);
      var carsIndex := LoadIndex(fs, CarsIndexFile).value;
      var offset := Get(carsIndex, vin).value as nat;
      var car := CarAt(fs, offset).value;
      assert UpdateVin(fs, vin, newVin) == RenameCar(fs, carsIndex, vin, newVin, offset, car);
      RenameCarFrame(fs, carsIndex, vin, newVin, offset, car);
    }
  }

  lemma {:induction false} RenameCarFrame(fs: FileSystem, carsIndex: Index, vin: string, newVin: string, offset: nat, car: Car)
    requires CarsLog in fs
    ensures SameModels(fs, RenameCar(fs, carsIndex, vin, newVin, offset, car).1)
  {
    var fs1 := Rewritten(fs, CarsLog, offset, EncodeCar(car.(vin := newVin)));
    var fs2 := IndexWritten(fs1, CarsIndexFile, Rekeyed(carsIndex, vin, newVin, offset));
    assert SameModels(fs, fs2);
    var r := RenameCar(fs, carsIndex, vin, newVin, offset, car).1;
    if r != fs2 {
      var salesIndex := LoadIndex(fs2, SalesIndexFile).value;
      var saleOffset := Get(salesIndex, vin).value;
      var sale := SaleAt(fs2, saleOffset).value;
      var fs3 := Rewritten(fs2, SalesLog, saleOffset, EncodeSale(sale.(carVin := newVin)));
      assert r == IndexWritten(fs3, SalesIndexFile, Rekeyed(salesIndex, vin, newVin, saleOffset));
      assert SameModels(fs2, fs3);
    }
  }

  /**
    Whatever its outcome, `revert_sale` writes only the cars log and the
    sales index: the sale line itself stays in the sales log.
   */
  lemma {:induction false} RevertSaleFrame(fs: FileSystem, salesNumber: string)
    ensures SameModels(fs, RevertSale(fs, salesNumber).1)
    ensures SameFile(fs, RevertSale(fs, salesNumber).1, CarsIndexFile) && SameFile(fs, RevertSale(fs, salesNumber).1, SalesLog)
  {
    if SalesLog in fs && FindSale(fs[SalesLog], salesNumber).Some? && LoadIndex(fs, SalesIndexFile).Ok? {
      var position, sale, salesIndex := RevertSaleSteps(fs, salesNumber);
      var fs1 := DropSaleEntry(fs, salesIndex, sale.carVin, position);
      DropSaleEntryKeeps(fs, salesIndex, sale.carVin, position);
      RestoreCarFrame(fs1, sale.carVin);
      var r := RevertSale(fs, salesNumber).1;
      assert SameFile(fs, fs1, ModelsLog) && SameFile(fs1, r, ModelsLog);
      assert SameFile(fs, fs1, ModelsIndexFile) && SameFile(fs1, r, ModelsIndexFile);
      assert SameFile(fs, fs1, CarsIndexFile) && SameFile(fs1, r, CarsIndexFile);
      assert SameFile(fs, fs1, SalesLog) && SameFile(fs1, r, SalesLog);
    }
  }
}
