/**
  What each `CarService` operation does to the directory it works in, as a
  function from the files before the call to its outcome and the files
  after it. Writes happen in the order the service performs them, so an
  operation that fails part-way leaves the writes it already made.
 */
module Ledger {
  import opened Base
  import opened Text
  import opened Records
  import opened RecordLog
  import opened Dicts
  import opened OffsetIndex
  import opened Ranking
  import opened Collect

  /** The service's root directory: file to contents; a missing file has no entry. */
  type FileSystem = map<FileName, string>

  /** What `CarFullInfo` holds: the car, its model, and its sale if there is one. */
  datatype CarFullInfo = CarFullInfo(
    vin: string, carModelName: string, carModelBrand: string, price: string,
    dateStart: string, status: CarStatus,
    salesDate: Option<string>, salesCost: Option<string>)

  /** The contents an append-mode `open` starts from: a missing file is created empty. */
  function Contents(fs: FileSystem, name: FileName): string {
    if name in fs then fs[name] else ""
  }

  // ---- `_append_to_file`, `_update_index`, `_read_index_to_dict`, `_write_index`

  /** The files after `_append_to_file(name, data)`; it returns `|Contents(fs, name)|`. */
  function Appended(fs: FileSystem, name: FileName, data: string): FileSystem {
    fs[name := Contents(fs, name) + data + "\n"]
  }

  /** The files after `_update_index(name, key, position)`. */
  function IndexAppended(fs: FileSystem, name: FileName, key: string, position: int): FileSystem {
    fs[name := Contents(fs, name) + EntryLine(key, position)]
  }

  /** `_read_index_to_dict(name)`: a missing index file reads as the empty dict. */
  function LoadIndex(fs: FileSystem, name: FileName): (r: Result<Index>)
    ensures r.Fail? ==> r.error.BadOffset?
  {
    if name !in fs then Ok([]) else ParseIndex(fs[name])
  }

  /** The files after `_write_index(name, d)`. */
  function IndexWritten(fs: FileSystem, name: FileName, d: Index): FileSystem {
    fs[name := IndexText(d)]
  }

  // ---- point reads and in-place rewrites --------------------------------------

  /**
    `open(name)`, `f.seek(offset)`, `f.readline().strip()`: opening a
    missing file and seeking to a negative position both raise.
   */
  function ReadRecordLine(fs: FileSystem, name: FileName, offset: int): (r: Result<string>)
    ensures r.Ok? ==> name in fs && offset >= 0
    ensures r.Ok? && r.value != [] ==> offset < |fs[name]|
  {
    if name !in fs then Fail(FileMissing(name))
    else if offset < 0 then Fail(NegativeSeek(offset))
    else Ok(Strip(LineAt(fs[name], offset)))
  }

  /** The car record at `offset` in the cars log; a line that does not decode raises. */
  function CarAt(fs: FileSystem, offset: int): (r: Result<Car>)
    ensures r.Fail? ==> IsReadFailure(r.error)
    ensures r.Ok? ==> CarsLog in fs && 0 <= offset < |fs[CarsLog]|
  {
    match ReadRecordLine(fs, CarsLog, offset)
    case Fail(e) => Fail(e)
    case Ok(line) =>
      match DecodeCar(line)
      case Some(car) => Ok(car)
      case None => Fail(CorruptRecord)
  }

  function ModelAt(fs: FileSystem, offset: int): (r: Result<Model>)
    ensures r.Fail? ==> IsReadFailure(r.error)
    ensures r.Ok? ==> ModelsLog in fs && 0 <= offset < |fs[ModelsLog]|
  {
    match ReadRecordLine(fs, ModelsLog, offset)
    case Fail(e) => Fail(e)
    case Ok(line) =>
      match DecodeModel(line)
      case Some(model) => Ok(model)
      case None => Fail(CorruptRecord)
  }

  function SaleAt(fs: FileSystem, offset: int): (r: Result<Sale>)
    ensures r.Fail? ==> IsReadFailure(r.error)
    ensures r.Ok? ==> SalesLog in fs && 0 <= offset < |fs[SalesLog]|
  {
    match ReadRecordLine(fs, SalesLog, offset)
    case Fail(e) => Fail(e)
    case Ok(line) =>
      match DecodeSale(line)
      case Some(sale) => Ok(sale)
      case None => Fail(CorruptRecord)
  }

  /** `f.seek(offset); f.write(data + '\n')` on the file opened with `'r+'`. */
  function Rewritten(fs: FileSystem, name: FileName, offset: nat, data: string): FileSystem
    requires name in fs
  {
    fs[name := Overwrite(fs[name], offset, data + "\n")]
  }

  // ---- whole-log reads ---------------------------------------------------------

  function DecodedCar(line: string): Option<Car> {
    DecodeCar(Strip(line))
  }

  function DecodedModel(line: string): Option<Model> {
    DecodeModel(Strip(line))
  }

  /** Each line of the cars log, decoded the way the whole-log reads decode it. */
  function DecodedCars(lines: seq<string>): (ds: seq<Option<Car>>)
    ensures |ds| == |lines| && forall i :: 0 <= i < |lines| ==> ds[i] == DecodedCar(lines[i])
    decreases |lines|
  {
    if lines == [] then [] else DecodedCars(lines[..|lines| - 1]) + [DecodedCar(lines[|lines| - 1])]
  }

  function DecodedModels(lines: seq<string>): (ds: seq<Option<Model>>)
    ensures |ds| == |lines| && forall i :: 0 <= i < |lines| ==> ds[i] == DecodedModel(lines[i])
    decreases |lines|
  {
    if lines == [] then [] else DecodedModels(lines[..|lines| - 1]) + [DecodedModel(lines[|lines| - 1])]
  }

  lemma {:induction false} DecodedCarsSnoc(lines: seq<string>, line: string)
    ensures DecodedCars(lines + [line]) == DecodedCars(lines) + [DecodedCar(line)]
  {
    assert (lines + [line])[..|lines|] == lines;
  }

  lemma {:induction false} DecodedModelsSnoc(lines: seq<string>, line: string)
    ensures DecodedModels(lines + [line]) == DecodedModels(lines) + [DecodedModel(line)]
  {
    assert (lines + [line])[..|lines|] == lines;
  }

  function CarVin(car: Car): string { car.vin }

  function ModelId(model: Model): int { model.id }

  /** `_read_all_cars` over the lines of the log: each decodable line sets `cars[car.vin]`. */
  function AllCars(lines: seq<string>): Dict<string, Car> {
    KeyedBy(DecodedCars(lines), CarVin)
  }

  /** `_read_all_models` over the lines of the log: each decodable line sets `models[model.id]`. */
  function AllModels(lines: seq<string>): Dict<int, Model> {
    KeyedBy(DecodedModels(lines), ModelId)
  }

  function ReadAllCars(fs: FileSystem): Dict<string, Car> {
    if CarsLog !in fs then [] else AllCars(Lines(fs[CarsLog]))
  }

  function ReadAllModels(fs: FileSystem): Dict<int, Model> {
    if ModelsLog !in fs then [] else AllModels(Lines(fs[ModelsLog]))
  }

  /** The test `get_cars(status)` applies to each car. */
  function StatusIs(status: CarStatus): Car -> bool {
    (car: Car) => car.status == status
  }

  /** The cars `get_cars(status)` collects from the given lines. */
  function CarsWithStatus(lines: seq<string>, status: CarStatus): seq<Car> {
    Kept(DecodedCars(lines), StatusIs(status))
  }

  lemma {:induction false} CarsWithStatusSnoc(lines: seq<string>, line: string, status: CarStatus)
    ensures CarsWithStatus(lines + [line], status) ==
      var car := DecodedCar(line);
      if car.Some? && car.value.status == status then CarsWithStatus(lines, status) + [car.value]
      else CarsWithStatus(lines, status)
  {
    DecodedCarsSnoc(lines, line);
    KeptSnoc(DecodedCars(lines), DecodedCar(line), StatusIs(status));
  }

  /** `get_cars(status)`: a missing cars log gives the empty list. */
  function GetCars(fs: FileSystem, status: CarStatus): seq<Car> {
    if CarsLog !in fs then [] else CarsWithStatus(Lines(fs[CarsLog]), status)
  }

  // ---- add_model, add_car --------------------------------------------------------

  /** `add_model(model)`: append the record, then its `str(id):offset` index line. */
  function AddModel(fs: FileSystem, model: Model): (Model, FileSystem) {
    var position := |Contents(fs, ModelsLog)|;
    var fs1 := Appended(fs, ModelsLog, EncodeModel(model));
    (model, IndexAppended(fs1, ModelsIndexFile, IntToString(model.id), position))
  }

  /** `add_car(car)`: append the record, then its `vin:offset` index line. */
  function AddCar(fs: FileSystem, car: Car): (Car, FileSystem) {
    var position := |Contents(fs, CarsLog)|;
    var fs1 := Appended(fs, CarsLog, EncodeCar(car));
    (car, IndexAppended(fs1, CarsIndexFile, car.vin, position))
  }

  // ---- sell_car ------------------------------------------------------------------

  /**
    `sell_car(sale)`: look the car up, refuse an unknown or sold car, rewrite
    its record as sold, append the sale, and point the sales index at it.
   */
  function SellCar(fs: FileSystem, sale: Sale): (Result<Car>, FileSystem) {
    match LoadIndex(fs, CarsIndexFile)
    case Fail(e) => (Fail(e), fs)
    case Ok(carsIndex) =>
      match Get(carsIndex, sale.carVin)
      case None => (Fail(CarNotFound(sale.carVin)), fs)
      case Some(offset) =>
        match CarAt(fs, offset)
        case Fail(e) => (Fail(e), fs)
        case Ok(car) =>
          if car.status == Sold then (Fail(CarAlreadySold(sale.carVin)), fs)
          else RecordSale(fs, sale, offset, car)
  }

  /**
    The writes of `sell_car` once the checks have passed: only reading the
    sales index can still raise, after the car and the sale are written.
   */
  function RecordSale(fs: FileSystem, sale: Sale, offset: nat, car: Car): (r: (Result<Car>, FileSystem))
    requires CarsLog in fs
    ensures r.0.Fail? ==> r.0.error.BadOffset?
  {
    var sold := car.(status := Sold);
    var fs1 := Rewritten(fs, CarsLog, offset, EncodeCar(sold));
    var saleOffset := |Contents(fs1, SalesLog)|;
    var fs2 := Appended(fs1, SalesLog, EncodeSale(sale));
    match LoadIndex(fs2, SalesIndexFile)
    case Fail(e) => (Fail(e), fs2)
    case Ok(salesIndex) =>
      (Ok(sold), IndexWritten(fs2, SalesIndexFile, Put(salesIndex, sale.carVin, saleOffset)))
  }

  // ---- get_car_info ----------------------------------------------------------------

  /** The sale date and cost `get_car_info` reports for `vin`. */
  function SaleFields(fs: FileSystem, salesIndex: Index, vin: string): Result<(Option<string>, Option<string>)> {
    match Get(salesIndex, vin)
    case None => Ok((None, None))
    case Some(offset) =>
      match SaleAt(fs, offset)
      case Fail(e) => Fail(e)
      case Ok(sale) => Ok((Some(sale.salesDate), Some(sale.cost)))
  }

  /**
    `get_car_info(vin)`: `Ok(None)` when the car or its model is not indexed;
    a failed read raises.
   */
  function GetCarInfo(fs: FileSystem, vin: string): Result<Option<CarFullInfo>> {
    match LoadIndex(fs, CarsIndexFile)
    case Fail(e) => Fail(e)
    case Ok(carsIndex) =>
      match Get(carsIndex, vin)
      case None => Ok(None)
      case Some(carOffset) =>
        match CarAt(fs, carOffset)
        case Fail(e) => Fail(e)
        case Ok(car) => JoinModel(fs, vin, car)
  }

  /** The rest of `get_car_info` once the car is read: its model, then its sale. */
  function JoinModel(fs: FileSystem, vin: string, car: Car): Result<Option<CarFullInfo>> {
    match LoadIndex(fs, ModelsIndexFile)
    case Fail(e) => Fail(e)
    case Ok(modelsIndex) =>
      match Get(modelsIndex, IntToString(car.model))
      case None => Ok(None)
      case Some(modelOffset) =>
        match ModelAt(fs, modelOffset)
        case Fail(e) => Fail(e)
        case Ok(model) =>
          match LoadIndex(fs, SalesIndexFile)
          case Fail(e) => Fail(e)
          case Ok(salesIndex) =>
            match SaleFields(fs, salesIndex, vin)
            case Fail(e) => Fail(e)
            case Ok(fields) =>
              Ok(Some(CarFullInfo(car.vin, model.name, model.brand, car.price,
                                  car.dateStart, car.status, fields.0, fields.1)))
  }

  // ---- update_vin ------------------------------------------------------------------

  /** `d[newKey] = d.pop(key)` for a `newKey` not in `d`. */
  function Rekeyed(d: Index, key: string, newKey: string, offset: int): Index {
    Put(Delete(d, key), newKey, offset)
  }

  /**
    `update_vin(vin, new_vin)`: refuse a taken new VIN, then an unknown VIN;
    rewrite the car record and move its cars index entry; then, if the car
    was sold, rewrite the sale record and move its sales index entry.
   */
  function UpdateVin(fs: FileSystem, vin: string, newVin: string): (Result<Car>, FileSystem) {
    match LoadIndex(fs, CarsIndexFile)
    case Fail(e) => (Fail(e), fs)
    case Ok(carsIndex) =>
      if Get(carsIndex, newVin).Some? then (Fail(CarExists(newVin)), fs)
      else
        match Get(carsIndex, vin)
        case None => (Fail(CarNotFound(vin)), fs)
        case Some(offset) =>
          match CarAt(fs, offset)
          case Fail(e) => (Fail(e), fs)
          case Ok(car) => RenameCar(fs, carsIndex, vin, newVin, offset, car)
  }

  /**
    The writes of `update_vin` once the checks have passed: the car record
    and the cars index first; then, if the sales index knows the old VIN,
    the sale record and the sales index. Only reads can still raise.
   */
  function RenameCar(fs: FileSystem, carsIndex: Index, vin: string, newVin: string, offset: nat, car: Car)
    : (r: (Result<Car>, FileSystem))
    requires CarsLog in fs
    ensures r.0.Fail? ==> IsReadFailure(r.0.error)
  {
    var renamed := car.(vin := newVin);
    var fs1 := Rewritten(fs, CarsLog, offset, EncodeCar(renamed));
    var fs2 := IndexWritten(fs1, CarsIndexFile, Rekeyed(carsIndex, vin, newVin, offset));
    match LoadIndex(fs2, SalesIndexFile)
    case Fail(e) => (Fail(e), fs2)
    case Ok(salesIndex) =>
      match Get(salesIndex, vin)
      case None => (Ok(renamed), fs2)
      case Some(saleOffset) =>
        match SaleAt(fs2, saleOffset)
        case Fail(e) => (Fail(e), fs2)
        case Ok(sale) =>
          var fs3 := Rewritten(fs2, SalesLog, saleOffset, EncodeSale(sale.(carVin := newVin)));
          (Ok(renamed), IndexWritten(fs3, SalesIndexFile, Rekeyed(salesIndex, vin, newVin, saleOffset)))
  }

  // ---- revert_sale -----------------------------------------------------------------

  /** The sale a line holds, if it decodes to one with this sales number. */
  function SaleNumbered(salesNumber: string, line: string): (r: Option<Sale>)
    ensures r.Some? ==> r.value.salesNumber == salesNumber && DecodeSale(Strip(line)) == r
    ensures r.None? ==> DecodeSale(Strip(line)).None? || DecodeSale(Strip(line)).value.salesNumber != salesNumber
  {
    match DecodeSale(Strip(line))
    case Some(sale) => if sale.salesNumber == salesNumber then Some(sale) else None
    case None => None
  }

  function SalePicker(salesNumber: string): string -> Option<Sale> {
    line => SaleNumbered(salesNumber, line)
  }

  /**
    The scan of `revert_sale`: the first line of the sales log that decodes
    to a sale with this number, and where it starts.
   */
  function FindSale(content: string, salesNumber: string): Option<(Sale, nat)> {
    FirstPicked(content, SalePicker(salesNumber), 0)
  }

  /**
    `revert_sale(sales_number)`: find the sale, drop its sales index entry if
    that entry still points at it, then rewrite the car as available. The
    sales index is written before the car is looked up, so a sale whose car
    is not indexed still loses its index entry.
   */
  function RevertSale(fs: FileSystem, salesNumber: string): (Result<Car>, FileSystem) {
    if SalesLog !in fs then (Fail(FileMissing(SalesLog)), fs)
    else
      match FindSale(fs[SalesLog], salesNumber)
      case None => (Fail(SaleNotFound(salesNumber)), fs)
      case Some(found) =>
        match LoadIndex(fs, SalesIndexFile)
        case Fail(e) => (Fail(e), fs)
        case Ok(salesIndex) => RestoreCar(DropSaleEntry(fs, salesIndex, found.0.carVin, found.1), found.0.carVin)
  }

  /** The sales index without the VIN's entry, written only if that entry points at `position`. */
  function DropSaleEntry(fs: FileSystem, salesIndex: Index, vin: string, position: nat): FileSystem {
    if Get(salesIndex, vin) == Some(position as int)
    then IndexWritten(fs, SalesIndexFile, Delete(salesIndex, vin))
    else fs
  }

  /** The rest of `revert_sale`: look the car up and rewrite it as available. */
  function RestoreCar(fs: FileSystem, vin: string): (r: (Result<Car>, FileSystem))
    ensures r.0.Fail? ==> IsReadFailure(r.0.error) || r.0.error == CarNotFound(vin)
  {
    match LoadIndex(fs, CarsIndexFile)
    case Fail(e) => (Fail(e), fs)
    case Ok(carsIndex) =>
      match Get(carsIndex, vin)
      case None => (Fail(CarNotFound(vin)), fs)
      case Some(offset) =>
        match CarAt(fs, offset)
        case Fail(e) => (Fail(e), fs)
        case Ok(car) =>
          var available := car.(status := Available);
          (Ok(available), Rewritten(fs, CarsLog, offset, EncodeCar(available)))
  }

  // ---- top_models_by_sales -----------------------------------------------------------

  /** The (name, brand) a sold car's model resolves to, if both are known. */
  function ResolvedModel(vin: string, cars: Dict<string, Car>, models: Dict<int, Model>): Option<ModelKey> {
    match Get(cars, vin)
    case None => None
    case Some(car) =>
      match Get(models, car.model)
      case None => None
      case Some(model) => Some((model.name, model.brand))
  }

  /**
    The key counted for one sales index entry, if any: the sale line must
    decode and the car and its model must resolve. Opening the sales log or
    seeking raises.
   */
  function EntryKey(fs: FileSystem, vin: string, offset: int,
                    cars: Dict<string, Car>, models: Dict<int, Model>): Result<Option<ModelKey>> {
    match ReadRecordLine(fs, SalesLog, offset)
    case Fail(e) => Fail(e)
    case Ok(line) =>
      if DecodeSale(line).None? then Ok(None) else Ok(ResolvedModel(vin, cars, models))
  }

  /** The outcome of each sales index entry, in index order. */
  function EntryKeys(fs: FileSystem, entries: Index,
                     cars: Dict<string, Car>, models: Dict<int, Model>): (rs: seq<Result<Option<ModelKey>>>)
    ensures |rs| == |entries|
    ensures forall i :: 0 <= i < |entries| ==> rs[i] == EntryKey(fs, entries[i].0, entries[i].1, cars, models)
    decreases |entries|
  {
    if entries == [] then []
    else
      var n := |entries| - 1;
      EntryKeys(fs, entries[..n], cars, models) + [EntryKey(fs, entries[n].0, entries[n].1, cars, models)]
  }

  /** The keys counted for the sales index entries; the first entry that raises ends the count. */
  function SoldKeys(fs: FileSystem, entries: Index,
                    cars: Dict<string, Car>, models: Dict<int, Model>): Result<seq<ModelKey>> {
    Gathered(EntryKeys(fs, entries, cars, models))
  }

  /** One more sales index entry counted. */
  lemma {:induction false} SoldKeysStep(fs: FileSystem, entries: Index, i: nat, cars: Dict<string, Car>, models: Dict<int, Model>)
    requires i < |entries|
    ensures SoldKeys(fs, entries[..i + 1], cars, models) ==
      match SoldKeys(fs, entries[..i], cars, models)
      case Fail(e) => Fail(e)
      case Ok(ks) =>
        match EntryKey(fs, entries[i].0, entries[i].1, cars, models)
        case Fail(e) => Fail(e)
        case Ok(None) => Ok(ks)
        case Ok(Some(k)) => Ok(ks + [k])
  {
    var rs := EntryKeys(fs, entries[..i + 1], cars, models);
    assert rs[..i] == EntryKeys(fs, entries[..i], cars, models);
  }

  /** Once an entry has raised, counting all the entries raises the same. */
  lemma {:induction false} SoldKeysFailExtends(fs: FileSystem, entries: Index, n: nat, cars: Dict<string, Car>, models: Dict<int, Model>)
    requires n <= |entries| && SoldKeys(fs, entries[..n], cars, models).Fail?
    ensures SoldKeys(fs, entries, cars, models) == SoldKeys(fs, entries[..n], cars, models)
  {
    var rs := EntryKeys(fs, entries, cars, models);
    assert rs[..n] == EntryKeys(fs, entries[..n], cars, models);
    GatheredFailExtends(rs, n);
  }

  /** `top_models_by_sales()`. */
  function TopModels(fs: FileSystem): Result<seq<ModelSaleStats>> {
    match LoadIndex(fs, SalesIndexFile)
    case Fail(e) => Fail(e)
    case Ok(salesIndex) =>
      match SoldKeys(fs, salesIndex, ReadAllCars(fs), ReadAllModels(fs))
      case Fail(e) => Fail(e)
      case Ok(ks) => Ok(Ranked(ks))
  }
}
