/**
  What the read-only operations return: `get_cars`, `get_car_info` and
  `top_models_by_sales` (the dicts `_read_all_cars` and `_read_all_models`
  build are described by `Collect.KeyedByLookup`).
 */
module ReadFacts {
  import opened Base
  import opened Text
  import opened Records
  import opened RecordLog
  import opened Dicts
  import opened OffsetIndex
  import opened Ranking
  import opened Collect
  import opened Ledger

  // ---- get_cars ----------------------------------------------------------------

  /**
    `get_cars(status)`: no cars without a cars log; otherwise the cars of
    exactly the lines that decode to a car with that status, one per line,
    in file order: `idx` lists those lines.
   */
  lemma {:induction false} GetCarsExact(fs: FileSystem, status: CarStatus) returns (idx: seq<nat>)
    ensures CarsLog !in fs ==> GetCars(fs, status) == []
    ensures forall c :: c in GetCars(fs, status) ==> c.status == status
    ensures CarsLog in fs ==>
      var lines := Lines(fs[CarsLog]);
      |idx| == |GetCars(fs, status)| &&
      (forall j :: 0 <= j < |idx| ==> idx[j] < |lines| && DecodedCar(lines[idx[j]]) == Some(GetCars(fs, status)[j])) &&
      (forall j, j' :: 0 <= j < j' < |idx| ==> idx[j] < idx[j']) &&
      (forall i :: 0 <= i < |lines| ==>
        (i in idx <==> DecodedCar(lines[i]).Some? && DecodedCar(lines[i]).value.status == status))
  {
    if CarsLog in fs {
      var lines := Lines(fs[CarsLog]);
      var ds := DecodedCars(lines);
      var keep := StatusIs(status);
      idx := KeptExact(ds, keep);
      var cars := GetCars(fs, status);
      assert cars == Kept(ds, keep);
      forall c | c in cars ensures c.status == status {
        var j :| 0 <= j < |cars| && cars[j] == c;
        assert KeptItem(ds[idx[j]], keep) by { assert idx[j] in idx; }
      }
    } else {
      idx := [];
    }
  }

  // ---- get_car_info --------------------------------------------------------------

  /** Once the car is read, the answer is `None` exactly when its model id is not indexed. */
  lemma {:induction false} JoinModelNone(fs: FileSystem, vin: string, car: Car)
    ensures JoinModel(fs, vin, car) == Ok(None) <==>
      LoadIndex(fs, ModelsIndexFile).Ok? && Get(LoadIndex(fs, ModelsIndexFile).value, IntToString(car.model)).None?
  {
    if LoadIndex(fs, ModelsIndexFile).Ok? {
      var modelsIndex := LoadIndex(fs, ModelsIndexFile).value;
      if Get(modelsIndex, IntToString(car.model)).Some? {
        var model := ModelAt(fs, Get(modelsIndex, IntToString(car.model)).value);
        if model.Ok? && LoadIndex(fs, SalesIndexFile).Ok? {
          var fields := SaleFields(fs, LoadIndex(fs, SalesIndexFile).value, vin);
        }
      }
    }
  }

  /**
    `get_car_info(vin)` gives `None` exactly when the VIN is not in the cars
    index, or its car reads back but the car's model id is not in the models
    index.
   */
  lemma {:induction false} GetCarInfoNone(fs: FileSystem, vin: string)
    ensures GetCarInfo(fs, vin) == Ok(None) <==>
      LoadIndex(fs, CarsIndexFile).Ok? &&
      (Get(LoadIndex(fs, CarsIndexFile).value, vin).None? ||
       (var car := CarAt(fs, Get(LoadIndex(fs, CarsIndexFile).value, vin).value);
        car.Ok? && LoadIndex(fs, ModelsIndexFile).Ok? &&
        Get(LoadIndex(fs, ModelsIndexFile).value, IntToString(car.value.model)).None?))
  {
    if LoadIndex(fs, CarsIndexFile).Ok? {
      var carsIndex := LoadIndex(fs, CarsIndexFile).value;
      if Get(carsIndex, vin).Some? {
        var car := CarAt(fs, Get(carsIndex, vin).value);
        if car.Ok? {
          JoinModelNone(fs, vin, car.value);
        }
      }
    }
  }

  /**
    A full answer joins the indexed car with its indexed model; the sale
    date and cost are absent exactly when the VIN is not in the sales index,
    and otherwise come from the indexed sale.
   */
  lemma {:induction false} GetCarInfoFound(fs: FileSystem, vin: string, info: CarFullInfo)
    returns (carsIndex: Index, car: Car, modelsIndex: Index, model: Model, salesIndex: Index)
    requires GetCarInfo(fs, vin) == Ok(Some(info))
    ensures LoadIndex(fs, CarsIndexFile) == Ok(carsIndex) && Get(carsIndex, vin).Some?
    ensures CarAt(fs, Get(carsIndex, vin).value) == Ok(car)
    ensures LoadIndex(fs, ModelsIndexFile) == Ok(modelsIndex) && Get(modelsIndex, IntToString(car.model)).Some?
    ensures ModelAt(fs, Get(modelsIndex, IntToString(car.model)).value) == Ok(model)
    ensures LoadIndex(fs, SalesIndexFile) == Ok(salesIndex)
    ensures info.vin == car.vin && info.price == car.price && info.dateStart == car.dateStart
    ensures info.status == car.status
    ensures info.carModelName == model.name && info.carModelBrand == model.brand
    ensures info.salesDate.None? <==> Get(salesIndex, vin).None?
    ensures info.salesCost.None? <==> Get(salesIndex, vin).None?
    ensures Get(salesIndex, vin).Some? ==>
      var sale := SaleAt(fs, Get(salesIndex, vin).value);
      sale.Ok? && info.salesDate == Some(sale.value.salesDate) && info.salesCost == Some(sale.value.cost)
  {
    carsIndex := LoadIndex(fs, CarsIndexFile).value;
    car := CarAt(fs, Get(carsIndex, vin).value).value;
    modelsIndex := LoadIndex(fs, ModelsIndexFile).value;
    model := ModelAt(fs, Get(modelsIndex, IntToString(car.model)).value).value;
    salesIndex := LoadIndex(fs, SalesIndexFile).value;
  }

  // ---- top_models_by_sales ----------------------------------------------------------

  /** A sales index entry raises exactly when the sales log is missing or its offset is negative. */
  lemma {:induction false} EntryKeyRaises(fs: FileSystem, vin: string, offset: int,
                       cars: Dict<string, Car>, models: Dict<int, Model>)
    ensures EntryKey(fs, vin, offset, cars, models).Ok? <==> SalesLog in fs && offset >= 0
    ensures EntryKey(fs, vin, offset, cars, models).Ok? ==>
      (EntryKey(fs, vin, offset, cars, models).value.Some? <==>
        SaleAt(fs, offset).Ok? && ResolvedModel(vin, cars, models).Some?)
  {
    var read := ReadRecordLine(fs, SalesLog, offset);
    if read.Ok? {
      var line := read.value;
      assert EntryKey(fs, vin, offset, cars, models) ==
        if DecodeSale(line).None? then Ok(None) else Ok(ResolvedModel(vin, cars, models));
      assert SaleAt(fs, offset).Ok? <==> DecodeSale(line).Some?;
    } else {
      assert EntryKey(fs, vin, offset, cars, models).Fail?;
    }
  }

  /**
    Counting raises exactly when the sales log is missing while there are
    entries, or an entry has a negative offset. Otherwise the counted keys
    are those of the entries whose sale decodes and whose car and model
    resolve, one per entry, in index order: `idx` lists those entries.
   */
  lemma {:induction false} SoldKeysExact(fs: FileSystem, entries: Index, cars: Dict<string, Car>, models: Dict<int, Model>)
    returns (idx: seq<nat>)
    ensures SoldKeys(fs, entries, cars, models).Ok? <==>
      (entries == [] || SalesLog in fs) && forall i :: 0 <= i < |entries| ==> entries[i].1 >= 0
    ensures SoldKeys(fs, entries, cars, models).Ok? ==>
      var ks := SoldKeys(fs, entries, cars, models).value;
      |idx| == |ks| &&
      (forall j :: 0 <= j < |idx| ==>
        (idx[j] < |entries| && SaleAt(fs, entries[idx[j]].1).Ok? &&
         ResolvedModel(entries[idx[j]].0, cars, models) == Some(ks[j]))) &&
      (forall j, j' :: 0 <= j < j' < |idx| ==> idx[j] < idx[j']) &&
      (forall i :: 0 <= i < |entries| ==>
        (i in idx <==> SaleAt(fs, entries[i].1).Ok? && ResolvedModel(entries[i].0, cars, models).Some?))
  {
    var rs := EntryKeys(fs, entries, cars, models);
    idx := GatheredExact(rs);
    forall i | 0 <= i < |entries|
      ensures rs[i].Ok? <==> SalesLog in fs && entries[i].1 >= 0
      ensures rs[i].Ok? ==> (rs[i].value.Some? <==>
        SaleAt(fs, entries[i].1).Ok? && ResolvedModel(entries[i].0, cars, models).Some?)
      ensures rs[i].Ok? && rs[i].value.Some? ==> rs[i].value.value == ResolvedModel(entries[i].0, cars, models).value
    {
      EntryKeyRaises(fs, entries[i].0, entries[i].1, cars, models);
    }
  }

  /**
    `top_models_by_sales()` ranks the keys counted from the sales index,
    with the cars and models the logs hold, as `Ranking.RankedCorrect`
    describes: at most three, most sold first.
   */
  lemma {:induction false} TopModelsRanked(fs: FileSystem)
    requires TopModels(fs).Ok?
    ensures LoadIndex(fs, SalesIndexFile).Ok?
    ensures var ks := SoldKeys(fs, LoadIndex(fs, SalesIndexFile).value, ReadAllCars(fs), ReadAllModels(fs));
      ks.Ok? && TopModels(fs).value == Ranked(ks.value)
    ensures |TopModels(fs).value| <= 3 && Descending(TopModels(fs).value)
  {
    RankedCorrect(SoldKeys(fs, LoadIndex(fs, SalesIndexFile).value, ReadAllCars(fs), ReadAllModels(fs)).value);
  }
}
