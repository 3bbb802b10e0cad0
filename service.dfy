/**
  `CarService` itself: an object over the files of its root directory. Each
  method does what the Python method does, step by step, and is proved to
  leave the outcome and the files that the matching `Ledger` function
  describes.
 */
module Service {
  import opened Base
  import opened Text
  import opened Records
  import opened RecordLog
  import opened Dicts
  import opened OffsetIndex
  import opened Ranking
  import opened Collect
  import opened Ledger

  class CarService {
    /** The directory the service works in; every file name below is relative to it. */
    const rootDirectoryPath: string
    /** The files of that directory. */
    var disk: FileSystem

    constructor (rootDirectoryPath: string, disk: FileSystem)
      ensures this.rootDirectoryPath == rootDirectoryPath && this.disk == disk
    {
      this.rootDirectoryPath := rootDirectoryPath;
      this.disk := disk;
    }

    // ---- file helpers --------------------------------------------------------------

    /** `_append_to_file`: the offset the record starts at, and the log grown by one line. */
    method AppendToFile(name: FileName, data: string) returns (position: int)
      modifies this
      ensures position == |Contents(old(disk), name)|
      ensures disk == Appended(old(disk), name, data)
    {
      position := |Contents(disk, name)|;
      disk := Appended(disk, name, data);
    }

    /** `_update_index`: one `key:position` line appended to the index file. */
    method UpdateIndex(name: FileName, key: string, position: int)
      modifies this
      ensures disk == IndexAppended(old(disk), name, key, position)
    {
      disk := disk[name := Contents(disk, name) + EntryLine(key, position)];
    }

    /** `_read_index_to_dict`: the dict the lines of the index file build, or the error it raises. */
    method ReadIndexToDict(name: FileName) returns (r: Result<Index>)
      ensures r == LoadIndex(disk, name)
    {
      if name !in disk {
        return Ok([]);
      }
      var lines := Lines(disk[name]);
      var d: Index := [];
      var i := 0;
      while i < |lines|
        invariant 0 <= i <= |lines|
        invariant BuildIndex(ParseLines(lines[..i])) == Ok(d)
      {
        PrefixStep(lines, i);
        ParseLinesSnoc(lines[..i], lines[i]);
        BuildSnoc(ParseLines(lines[..i]), ParseIndexLine(lines[i]));
        match ParseIndexLine(lines[i]) {
          case Skip =>
          case Entry(key, offset) =>
            d := Put(d, key, offset);
          case Bad(text) =>
            BuildFailExtends(lines, i + 1);
            return Fail(BadOffset(text));
        }
        i := i + 1;
      }
      assert lines[..i] == lines;
      return Ok(d);
    }

    /** `_write_index`: the index file replaced by one line per entry, in dict order. */
    method WriteIndex(name: FileName, d: Index)
      modifies this
      ensures disk == IndexWritten(old(disk), name, d)
    {
      var text := "";
      var i := 0;
      while i < |d|
        invariant 0 <= i <= |d|
        invariant text == IndexText(d[..i])
      {
        assert d[..i + 1][..i] == d[..i];
        text := text + EntryLine(d[i].0, d[i].1);
        i := i + 1;
      }
      assert d[..i] == d;
      disk := disk[name := text];
    }

    /** `f.seek(offset); f.write(data + '\n')` on a file opened with `'r+'`. */
    method RewriteRecord(name: FileName, offset: nat, data: string)
      requires name in disk
      modifies this
      ensures disk == Rewritten(old(disk), name, offset, data)
    {
      disk := disk[name := Overwrite(disk[name], offset, data + "\n")];
    }

    /** `_read_all_models`: each decodable line sets the entry for its model id. */
    method ReadAllModels() returns (models: Dict<int, Model>)
      ensures models == Ledger.ReadAllModels(disk)
    {
      if ModelsLog !in disk {
        return [];
      }
      var lines := Lines(disk[ModelsLog]);
      models := [];
      var i := 0;
      while i < |lines|
        invariant 0 <= i <= |lines|
        invariant models == KeyedBy(DecodedModels(lines[..i]), ModelId)
      {
        assert DecodedModels(lines[..i + 1])[..i] == DecodedModels(lines[..i]);
        match DecodedModel(lines[i]) {
          case Some(model) =>
            models := Put(models, model.id, model);
          case None =>
        }
        i := i + 1;
      }
      assert lines[..i] == lines;
    }

    /** `_read_all_cars`: each decodable line sets the entry for its VIN. */
    method ReadAllCars() returns (cars: Dict<string, Car>)
      ensures cars == Ledger.ReadAllCars(disk)
    {
      if CarsLog !in disk {
        return [];
      }
      var lines := Lines(disk[CarsLog]);
      cars := [];
      var i := 0;
      while i < |lines|
        invariant 0 <= i <= |lines|
        invariant cars == KeyedBy(DecodedCars(lines[..i]), CarVin)
      {
        assert DecodedCars(lines[..i + 1])[..i] == DecodedCars(lines[..i]);
        match DecodedCar(lines[i]) {
          case Some(car) =>
            cars := Put(cars, car.vin, car);
          case None =>
        }
        i := i + 1;
      }
      assert lines[..i] == lines;
    }

    // ---- add_model, add_car -------------------------------------------------------------

    method AddModel(model: Model) returns (added: Model)
      modifies this
      ensures (added, disk) == Ledger.AddModel(old(disk), model)
    {
      var position := AppendToFile(ModelsLog, EncodeModel(model));
      UpdateIndex(ModelsIndexFile, IntToString(model.id), position);
      return model;
    }

    method AddCar(car: Car) returns (added: Car)
      modifies this
      ensures (added, disk) == Ledger.AddCar(old(disk), car)
    {
      var position := AppendToFile(CarsLog, EncodeCar(car));
      UpdateIndex(CarsIndexFile, car.vin, position);
      return car;
    }

    // ---- sell_car ---------------------------------------------------------------------

    method SellCar(sale: Sale) returns (r: Result<Car>)
      modifies this
      ensures (r, disk) == Ledger.SellCar(old(disk), sale)
    {
      var carsIndex := ReadIndexToDict(CarsIndexFile);
      if carsIndex.Fail? {
        return Fail(carsIndex.error);
      }
      var entry := Get(carsIndex.value, sale.carVin);
      if entry.None? {
        return Fail(CarNotFound(sale.carVin));
      }
      var read := CarAt(disk, entry.value);
      if read.Fail? {
        return Fail(read.error);
      }
      var car := read.value;
      if car.status == Sold {
        return Fail(CarAlreadySold(sale.carVin));
      }
      ghost var fs0 := disk;
      assert Ledger.SellCar(fs0, sale) == RecordSale(fs0, sale, entry.value, car);
      car := car.(status := Sold);
      RewriteRecord(CarsLog, entry.value, EncodeCar(car));
      var saleOffset := AppendToFile(SalesLog, EncodeSale(sale));
      var salesIndex := ReadIndexToDict(SalesIndexFile);
      if salesIndex.Fail? {
        return Fail(salesIndex.error);
      }
      WriteIndex(SalesIndexFile, Put(salesIndex.value, sale.carVin, saleOffset));
      return Ok(car);
    }

    // ---- get_cars -----------------------------------------------------------------------

    method GetCars(status: CarStatus) returns (cars: seq<Car>)
      ensures cars == Ledger.GetCars(disk, status)
    {
      if CarsLog !in disk {
        return [];
      }
      var lines := Lines(disk[CarsLog]);
      cars := [];
      var i := 0;
      while i < |lines|
        invariant 0 <= i <= |lines|
        invariant cars == CarsWithStatus(lines[..i], status)
      {
        PrefixStep(lines, i);
        CarsWithStatusSnoc(lines[..i], lines[i], status);
        var car := DecodedCar(lines[i]);
        if car.Some? && car.value.status == status {
          cars := cars + [car.value];
        }
        i := i + 1;
      }
      assert lines[..i] == lines;
    }

    // ---- get_car_info -----------------------------------------------------------------

    method GetCarInfo(vin: string) returns (r: Result<Option<CarFullInfo>>)
      ensures r == Ledger.GetCarInfo(disk, vin)
    {
      var carsIndex := ReadIndexToDict(CarsIndexFile);
      if carsIndex.Fail? {
        return Fail(carsIndex.error);
      }
      var carEntry := Get(carsIndex.value, vin);
      if carEntry.None? {
        return Ok(None);
      }
      var car := CarAt(disk, carEntry.value);
      if car.Fail? {
        return Fail(car.error);
      }
      r := JoinModel(vin, car.value);
    }

    /** The part of `get_car_info` after the car is read. */
    method JoinModel(vin: string, car: Car) returns (r: Result<Option<CarFullInfo>>)
      ensures r == Ledger.JoinModel(disk, vin, car)
    {
      var modelsIndex := ReadIndexToDict(ModelsIndexFile);
      if modelsIndex.Fail? {
        return Fail(modelsIndex.error);
      }
      var modelEntry := Get(modelsIndex.value, IntToString(car.model));
      if modelEntry.None? {
        return Ok(None);
      }
      var model := ModelAt(disk, modelEntry.value);
      if model.Fail? {
        return Fail(model.error);
      }
      var salesIndex := ReadIndexToDict(SalesIndexFile);
      if salesIndex.Fail? {
        return Fail(salesIndex.error);
      }
      var salesDate: Option<string> := None;
      var salesCost: Option<string> := None;
      var saleEntry := Get(salesIndex.value, vin);
      if saleEntry.Some? {
        var sale := SaleAt(disk, saleEntry.value);
        if sale.Fail? {
          return Fail(sale.error);
        }
        salesDate, salesCost := Some(sale.value.salesDate), Some(sale.value.cost);
      }
      return Ok(Some(CarFullInfo(car.vin, model.value.name, model.value.brand, car.price,
                                 car.dateStart, car.status, salesDate, salesCost)));
    }
  
    // ---- update_vin -------------------------------------------------------------------

    method UpdateVin(vin: string, newVin: string) returns (r: Result<Car>)
      modifies this
      ensures (r, disk) == Ledger.UpdateVin(old(disk), vin, newVin)
    {
      var carsIndex := ReadIndexToDict(CarsIndexFile);
      if carsIndex.Fail? {
        return Fail(carsIndex.error);
      }
      if Get(carsIndex.value, newVin).Some? {
        return Fail(CarExists(newVin));
      }
      var entry := Get(carsIndex.value, vin);
      if entry.None? {
        return Fail(CarNotFound(vin));
      }
      var read := CarAt(disk, entry.value);
      if read.Fail? {
        return Fail(read.error);
      }
      ghost var fs0 := disk;
      assert Ledger.UpdateVin(fs0, vin, newVin) == RenameCar(fs0, carsIndex.value, vin, newVin, entry.value, read.value);
      var car := read.value.(vin := newVin);
      RewriteRecord(CarsLog, entry.value, EncodeCar(car));
      WriteIndex(CarsIndexFile, Rekeyed(carsIndex.value, vin, newVin, entry.value));
      var salesIndex := ReadIndexToDict(SalesIndexFile);
      if salesIndex.Fail? {
        return Fail(salesIndex.error);
      }
      var saleEntry := Get(salesIndex.value, vin);
      if saleEntry.Some? {
        var sale := SaleAt(disk, saleEntry.value);
        if sale.Fail? {
          return Fail(sale.error);
        }
        RewriteRecord(SalesLog, saleEntry.value, EncodeSale(sale.value.(carVin := newVin)));
        WriteIndex(SalesIndexFile, Rekeyed(salesIndex.value, vin, newVin, saleEntry.value));
      }
      return Ok(car);
    }

    // ---- revert_sale ------------------------------------------------------------------

    /** The `while line:` scan: the first sale with this number, and the offset of its line. */
    method FindSale(salesNumber: string) returns (found: Option<(Sale, nat)>)
      requires SalesLog in disk
      ensures found == Ledger.FindSale(disk[SalesLog], salesNumber)
    {
      found := ScanLines(disk[SalesLog], SalePicker(salesNumber));
    }

    method RevertSale(salesNumber: string) returns (r: Result<Car>)
      modifies this
      ensures (r, disk) == Ledger.RevertSale(old(disk), salesNumber)
    {
      if SalesLog !in disk {
        return Fail(FileMissing(SalesLog));
      }
      var found := FindSale(salesNumber);
      if found.None? {
        return Fail(SaleNotFound(salesNumber));
      }
      var (sale, saleOffset) := found.value;
      var vin := sale.carVin;
      var salesIndex := ReadIndexToDict(SalesIndexFile);
      if salesIndex.Fail? {
        return Fail(salesIndex.error);
      }
      ghost var fs0 := disk;
      assert Ledger.RevertSale(fs0, salesNumber) == RestoreCar(DropSaleEntry(fs0, salesIndex.value, vin, saleOffset), vin);
      if Get(salesIndex.value, vin) == Some(saleOffset as int) {
        WriteIndex(SalesIndexFile, Delete(salesIndex.value, vin));
      }
      assert disk == DropSaleEntry(fs0, salesIndex.value, vin, saleOffset);
      var carsIndex := ReadIndexToDict(CarsIndexFile);
      if carsIndex.Fail? {
        return Fail(carsIndex.error);
      }
      var entry := Get(carsIndex.value, vin);
      if entry.None? {
        return Fail(CarNotFound(vin));
      }
      var read := CarAt(disk, entry.value);
      if read.Fail? {
        return Fail(read.error);
      }
      var car := read.value.(status := Available);
      RewriteRecord(CarsLog, entry.value, EncodeCar(car));
      return Ok(car);
    }

    // ---- top_models_by_sales ------------------------------------------------------------

    method TopModelsBySales() returns (r: Result<seq<ModelSaleStats>>)
      ensures r == TopModels(disk)
    {
      var salesIndex := ReadIndexToDict(SalesIndexFile);
      if salesIndex.Fail? {
        return Fail(salesIndex.error);
      }
      var cars := ReadAllCars();
      var models := ReadAllModels();
      var modelCount := CountModels(salesIndex.value, cars, models);
      if modelCount.Fail? {
        return Fail(modelCount.error);
      }
      var result := StatsList(modelCount.value);
      return Ok(FirstThree(SortDesc(result)));
    }

    /**
      The counting loop of `top_models_by_sales`: one more for the (name,
      brand) of each entry whose sale decodes and whose car and model
      resolve; opening the sales log or seeking raises.
     */
    method CountModels(entries: Index, cars: Dict<string, Car>, models: Dict<int, Model>)
      returns (r: Result<Dict<ModelKey, nat>>)
      ensures r == match SoldKeys(disk, entries, cars, models)
        case Fail(e) => Fail(e)
        case Ok(ks) => Ok(Tally(ks))
    {
      var modelCount: Dict<ModelKey, nat> := [];
      ghost var ks: seq<ModelKey> := [];
      var i := 0;
      while i < |entries|
        invariant 0 <= i <= |entries|
        invariant SoldKeys(disk, entries[..i], cars, models) == Ok(ks)
        invariant modelCount == Tally(ks)
      {
        var counted;
        counted, ks := CountEntry(entries, i, cars, models, modelCount, ks);
        if counted.Fail? {
          SoldKeysFailExtends(disk, entries, i + 1, cars, models);
          return Fail(counted.error);
        }
        modelCount := counted.value;
        i := i + 1;
      }
      assert entries[..i] == entries;
      return Ok(modelCount);
    }

    /** The body of the counting loop for entry `i`: `model_count[(name, brand)] += 1` when it resolves. */
    method CountEntry(entries: Index, i: nat, cars: Dict<string, Car>, models: Dict<int, Model>,
                      modelCount: Dict<ModelKey, nat>, ghost ks: seq<ModelKey>)
      returns (r: Result<Dict<ModelKey, nat>>, ghost ks': seq<ModelKey>)
      requires i < |entries|
      requires SoldKeys(disk, entries[..i], cars, models) == Ok(ks) && modelCount == Tally(ks)
      ensures r.Fail? ==> SoldKeys(disk, entries[..i + 1], cars, models) == Fail(r.error)
      ensures r.Ok? ==> SoldKeys(disk, entries[..i + 1], cars, models) == Ok(ks')
      ensures r.Ok? ==> r.value == Tally(ks')
    {
      SoldKeysStep(disk, entries, i, cars, models);
      var counted := EntryModel(entries[i].0, entries[i].1, cars, models);
      ks' := ks;
      match counted {
        case Fail(e) =>
          return Fail(e), ks';
        case Ok(None) =>
          return Ok(modelCount), ks';
        case Ok(Some(key)) =>
          ks' := ks + [key];
          var counts: Dict<ModelKey, nat> := Put<ModelKey, nat>(modelCount, key, CountOf(modelCount, key) + 1);
          TallySnoc(ks, key);
          assert counts == Tally(ks');
          return Ok(counts), ks';
      }
    }

    /**
      One pass of the counting loop: open the sales log, seek, read and
      decode the sale; a line that does not decode, an unknown car or an
      unknown model counts nothing.
     */
    method EntryModel(vin: string, offset: int, cars: Dict<string, Car>, models: Dict<int, Model>)
      returns (r: Result<Option<ModelKey>>)
      ensures r == EntryKey(disk, vin, offset, cars, models)
    {
      var line := ReadRecordLine(disk, SalesLog, offset);
      if line.Fail? {
        return Fail(line.error);
      }
      if DecodeSale(line.value).None? {
        return Ok(None);
      }
      var car := Get(cars, vin);
      if car.None? {
        return Ok(None);
      }
      var model := Get(models, car.value.model);
      if model.None? {
        return Ok(None);
      }
      return Ok(Some((model.value.name, model.value.brand)));
    }
  }

  /** The result list of `top_models_by_sales`, one entry per counted key, in dict order. */
  method StatsList(modelCount: Dict<ModelKey, nat>) returns (result: seq<ModelSaleStats>)
    ensures result == Stats(modelCount)
  {
    result := [];
    var j := 0;
    while j < |modelCount|
      invariant 0 <= j <= |modelCount|
      invariant result == Stats(modelCount[..j])
    {
      PrefixStep(modelCount, j);
      StatsSnoc(modelCount[..j], modelCount[j]);
      var (key, count) := modelCount[j];
      result := result + [ModelSaleStats(key.0, key.1, count)];
      j := j + 1;
    }
    assert modelCount[..j] == modelCount;
  }

  /**
    `pos = f.tell(); line = f.readline(); while line: ... pos = f.tell();
    line = f.readline()`, stopping at the first line `pick` accepts.
   */
  method ScanLines<T>(content: string, pick: string -> Option<T>) returns (found: Option<(T, nat)>)
    ensures found == FirstPicked(content, pick, 0)
  {
    var position: nat := 0;
    found := None;
    while position < |content| && found.None?
      invariant position <= |content|
      invariant found.None? ==> FirstPicked(content, pick, position) == FirstPicked(content, pick, 0)
      invariant found.Some? ==> found == FirstPicked(content, pick, 0)
      decreases |content| - position, if found.None? then 1 else 0
    {
      var line := LineAt(content, position);
      FirstPickedStep(content, pick, position);
      if pick(line).Some? {
        found := Some((pick(line).value, position));
      } else {
        position := position + |line|;
      }
    }
  }
}
