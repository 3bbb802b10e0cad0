/**
  What `get_car_info` reports after each write: the operations compose the
  way a caller of `CarService` expects them to.
 */
module ReadAfterWrite {
  import opened Base
  import opened Text
  import opened Records
  import opened Dicts
  import opened OffsetIndex
  import opened Ledger
  import opened WriteFacts

  /** `get_car_info` for a VIN the cars index maps to a readable record is the join of that record. */
  lemma {:induction false} GetCarInfoVia(fs: FileSystem, vin: string, offset: nat, car: Car)
    requires LoadIndex(fs, CarsIndexFile).Ok? && Get(LoadIndex(fs, CarsIndexFile).value, vin) == Some(offset as int)
    requires CarAt(fs, offset) == Ok(car)
    ensures GetCarInfo(fs, vin) == JoinModel(fs, vin, car)
  {
  }

  /** A join that found the model reports the car's own fields and the sale the sales index points at. */
  lemma {:induction false} JoinModelParts(fs: FileSystem, vin: string, car: Car, info: CarFullInfo)
    requires JoinModel(fs, vin, car) == Ok(Some(info))
    ensures info.vin == car.vin && info.price == car.price && info.dateStart == car.dateStart && info.status == car.status
    ensures LoadIndex(fs, SalesIndexFile).Ok?
    ensures SaleFields(fs, LoadIndex(fs, SalesIndexFile).value, vin) == Ok((info.salesDate, info.salesCost))
  {
  }

  /**
    With the models files unchanged, the join of a record of the same model
    finds the same model, so it differs from the old report only in the
    car's fields and the sale's.
   */
  lemma {:induction false} JoinModelAfter(fs: FileSystem, fs': FileSystem, vin: string, vin': string,
                                          car: Car, car': Car, info: CarFullInfo, fields: (Option<string>, Option<string>))
    requires SameModels(fs, fs') && car'.model == car.model
    requires JoinModel(fs, vin, car) == Ok(Some(info))
    requires LoadIndex(fs', SalesIndexFile).Ok? && SaleFields(fs', LoadIndex(fs', SalesIndexFile).value, vin') == Ok(fields)
    ensures JoinModel(fs', vin', car') == Ok(Some(info.(vin := car'.vin, price := car'.price, dateStart := car'.dateStart,
                                                       status := car'.status, salesDate := fields.0, salesCost := fields.1)))
  {
    assert LoadIndex(fs', ModelsIndexFile) == LoadIndex(fs, ModelsIndexFile);
    var modelOffset := Get(LoadIndex(fs, ModelsIndexFile).value, IntToString(car.model)).value;
    assert ReadRecordLine(fs', ModelsLog, modelOffset) == ReadRecordLine(fs, ModelsLog, modelOffset);
  }

  /**
    When the cars index still maps the VIN to the same offset, the record
    there is of the same model and the models files are unchanged, the new
    report is the old one with the record's fields and the sale's replaced.
   */
  lemma {:induction false} InfoAfter(fs: FileSystem, fs': FileSystem, vin: string, vin': string, offset: nat,
                                     car: Car, car': Car, info: CarFullInfo, fields: (Option<string>, Option<string>))
    requires LoadIndex(fs, CarsIndexFile).Ok? && Get(LoadIndex(fs, CarsIndexFile).value, vin) == Some(offset as int)
    requires LoadIndex(fs', CarsIndexFile).Ok? && Get(LoadIndex(fs', CarsIndexFile).value, vin') == Some(offset as int)
    requires CarAt(fs, offset) == Ok(car) && CarAt(fs', offset) == Ok(car') && car'.model == car.model
    requires SameModels(fs, fs')
    requires GetCarInfo(fs, vin) == Ok(Some(info))
    requires LoadIndex(fs', SalesIndexFile).Ok? && SaleFields(fs', LoadIndex(fs', SalesIndexFile).value, vin') == Ok(fields)
    ensures GetCarInfo(fs', vin') == Ok(Some(info.(vin := car'.vin, price := car'.price, dateStart := car'.dateStart,
                                                  status := car'.status, salesDate := fields.0, salesCost := fields.1)))
  {
    GetCarInfoVia(fs, vin, offset, car);
    JoinModelAfter(fs, fs', vin, vin', car, car', info, fields);
    GetCarInfoVia(fs', vin', offset, car');
  }

  /**
    After a successful `sell_car`, `get_car_info` for the car reports it
    sold, with the sale's date and cost, and otherwise what it reported
    before.
   */
  lemma {:induction false} SellCarThenInfo(fs: FileSystem, sale: Sale, info: CarFullInfo)
    requires SellCar(fs, sale).0.Ok? && GetCarInfo(fs, sale.carVin) == Ok(Some(info))
    ensures GetCarInfo(SellCar(fs, sale).1, sale.carVin) ==
      Ok(Some(info.(status := Sold, salesDate := Some(sale.salesDate), salesCost := Some(sale.cost))))
  {
    var offset, car := SellCarMarksSold(fs, sale);
    var salesIndex := SellCarRecordsSale(fs, sale);
    SellCarFrame(fs, sale);
    var fs' := SellCar(fs, sale).1;
    var sold := car.(status := Sold);
    assert SaleFields(fs', LoadIndex(fs', SalesIndexFile).value, sale.carVin) == Ok((Some(sale.salesDate), Some(sale.cost)));
    GetCarInfoVia(fs, sale.carVin, offset, car);
    JoinModelParts(fs, sale.carVin, car, info);
    InfoAfter(fs, fs', sale.carVin, sale.carVin, offset, car, sold, info, (Some(sale.salesDate), Some(sale.cost)));
  }

  /**
    After a successful `update_vin(vin, new_vin)`, `get_car_info(new_vin)`
    reports what `get_car_info(vin)` did, under the new VIN, and the old
    VIN is no longer found. Stated for a new VIN the sales index does not
    already know, since `update_vin` checks only the cars index.
   */
  lemma {:induction false} UpdateVinThenInfo(fs: FileSystem, vin: string, newVin: string, info: CarFullInfo)
    requires UpdateVin(fs, vin, newVin).0.Ok? && IsIndexKey(newVin) && GetCarInfo(fs, vin) == Ok(Some(info))
    requires LoadIndex(fs, SalesIndexFile).Ok? && Get(LoadIndex(fs, SalesIndexFile).value, newVin).None?
    ensures GetCarInfo(UpdateVin(fs, vin, newVin).1, newVin) == Ok(Some(info.(vin := newVin)))
    ensures GetCarInfo(UpdateVin(fs, vin, newVin).1, vin) == Ok(None)
  {
    var carsIndex, offset, car := UpdateVinRenamesCar(fs, vin, newVin);
    UpdateVinFrame(fs, vin, newVin);
    var fs' := UpdateVin(fs, vin, newVin).1;
    var renamed := car.(vin := newVin);
    GetCarInfoVia(fs, vin, offset, car);
    JoinModelParts(fs, vin, car, info);
    RenamedSaleFields(fs, vin, newVin);
    InfoAfter(fs, fs', vin, newVin, offset, car, renamed, info, (info.salesDate, info.salesCost));
  }

  /** `update_vin` carries the sale fields over from the old VIN to the new one. */
  lemma {:induction false} RenamedSaleFields(fs: FileSystem, vin: string, newVin: string)
    requires UpdateVin(fs, vin, newVin).0.Ok? && IsIndexKey(newVin)
    requires LoadIndex(fs, SalesIndexFile).Ok? && Get(LoadIndex(fs, SalesIndexFile).value, newVin).None?
    ensures LoadIndex(UpdateVin(fs, vin, newVin).1, SalesIndexFile).Ok?
    ensures SaleFields(UpdateVin(fs, vin, newVin).1, LoadIndex(UpdateVin(fs, vin, newVin).1, SalesIndexFile).value, newVin) ==
      SaleFields(fs, LoadIndex(fs, SalesIndexFile).value, vin)
  {
    var salesIndex := UpdateVinMovesSale(fs, vin, newVin);
    var fs' := UpdateVin(fs, vin, newVin).1;
    assert Get(LoadIndex(fs', SalesIndexFile).value, newVin) == Get(salesIndex, vin);
  }

  /**
    After `revert_sale` of a sale whose sales index entry pointed at the
    line it found, `get_car_info` for that car reports it available again,
    with no sale.
   */
  lemma {:induction false} RevertSaleThenInfo(fs: FileSystem, salesNumber: string, position: nat, sale: Sale, info: CarFullInfo)
    requires RevertSale(fs, salesNumber).0.Ok?
    requires SalesLog in fs && FindSale(fs[SalesLog], salesNumber) == Some((sale, position))
    requires LoadIndex(fs, SalesIndexFile).Ok? && Get(LoadIndex(fs, SalesIndexFile).value, sale.carVin) == Some(position as int)
    requires GetCarInfo(fs, sale.carVin) == Ok(Some(info))
    ensures GetCarInfo(RevertSale(fs, salesNumber).1, sale.carVin) ==
      Ok(Some(info.(status := Available, salesDate := None, salesCost := None)))
  {
    var salesIndex := LoadIndex(fs, SalesIndexFile).value;
    LoadedIndexKeys(fs, SalesIndexFile);
    DeleteGet(salesIndex, sale.carVin, sale.carVin);
    var fs' := RevertSale(fs, salesNumber).1;
    FindSaleFirst(fs[SalesLog], salesNumber);
    var p1, s1, _ := RevertSaleDropsEntry(fs, salesNumber);
    assert SaleFields(fs', LoadIndex(fs', SalesIndexFile).value, sale.carVin) == Ok((None, None));
    var p2, s2, offset, car := RevertSaleRestoresCar(fs, salesNumber);
    RevertSaleFrame(fs, salesNumber);
    var available := car.(status := Available);
    GetCarInfoVia(fs, sale.carVin, offset, car);
    JoinModelParts(fs, sale.carVin, car, info);
    InfoAfter(fs, fs', sale.carVin, sale.carVin, offset, car, available, info, (None, None));
  }
}
