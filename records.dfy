/**
  The three record kinds the service stores (only the fields it reads) and a
  line codec for them. The repository writes each record as one JSON object
  per line; the model replaces JSON by a small codec with the two properties
  the service relies on: an encoded record is one line (no `'\n'`, nothing
  for `strip()` to remove), and decoding an encoding gives the record back.
  A line that does not decode stands for a line `json.loads` rejects.
 */
module Records {
  import opened Base
  import opened Text

  datatype CarStatus = Available | Reserved | Sold

  datatype Model = Model(id: int, name: string, brand: string)

  /** `price` and `dateStart` are carried as their text, never computed on. */
  datatype Car = Car(vin: string, model: int, price: string, dateStart: string, status: CarStatus)

  datatype Sale = Sale(salesNumber: string, carVin: string, salesDate: string, cost: string)

  /** An encoded record: a single line with nothing `strip()` would remove. */
  predicate IsRecordLine(s: string) {
    '\n' !in s && |s| > 0 && Trimmed(s)
  }

  // ---- quoted fields -------------------------------------------------------

  function EscapeChar(c: char): string {
    if c == '"' then "\\\"" else if c == '\\' then "\\\\" else if c == '\n' then "\\n" else [c]
  }

  /** The body of a quoted field: no newline, and every quote is escaped. */
  function Escape(s: string): (r: string)
    decreases |s|
  {
    if s == [] then [] else EscapeChar(s[0]) + Escape(s[1..])
  }

  lemma {:induction false} EscapeNoNewline(s: string)
    ensures '\n' !in Escape(s)
    decreases |s|
  {
    if s != [] {
      EscapeNoNewline(s[1..]);
      assert '\n' !in EscapeChar(s[0]);
    }
  }

  /**
    Reads a field body up to its closing quote; yields the field and the text
    after the quote.
   */
  function Unquote(s: string): (r: Option<(string, string)>)
    ensures r.Some? ==> |r.value.1| < |s|
    decreases |s|
  {
    if s == [] then None
    else if s[0] == '"' then Some(([], s[1..]))
    else if s[0] == '\\' then
      if |s| < 2 || !(s[1] == 'n' || s[1] == '"' || s[1] == '\\') then None
      else
        var c := if s[1] == 'n' then '\n' else s[1];
        match Unquote(s[2..])
        case None => None
        case Some((v, rest)) => Some(([c] + v, rest))
    else
      match Unquote(s[1..])
      case None => None
      case Some((v, rest)) => Some(([s[0]] + v, rest))
  }

  lemma {:induction false} UnquoteEscape(v: string, rest: string)
    ensures Unquote(Escape(v) + "\"" + rest) == Some((v, rest))
    decreases |v|
  {
    if v == [] {
      assert Escape(v) + "\"" + rest == "\"" + rest;
    } else {
      var t := Escape(v[1..]) + "\"" + rest;
      UnquoteEscape(v[1..], rest);
      assert Escape(v) + "\"" + rest == EscapeChar(v[0]) + t;
      UnquoteEscapeChar(v[0], t, v[1..], rest);
      assert [v[0]] + v[1..] == v;
    }
  }

  /** One escaped character in front of a field body reads back as that character. */
  lemma {:induction false} UnquoteEscapeChar(c: char, t: string, v: string, rest: string)
    requires Unquote(t) == Some((v, rest))
    ensures Unquote(EscapeChar(c) + t) == Some(([c] + v, rest))
  {
    var s := EscapeChar(c) + t;
    if c == '"' || c == '\\' || c == '\n' {
      assert s[2..] == t;
    } else {
      assert s[1..] == t;
    }
  }

  /**
    `f1","f2",...,"fn"`: every field after its opening quote, each one
    escaped and closed, separated by `,"`.
   */
  function JoinFields(fs: seq<string>): (r: string)
    requires fs != []
    ensures |r| > 0 && r[|r| - 1] == '"'
    decreases |fs|
  {
    if |fs| == 1 then Escape(fs[0]) + "\""
    else Escape(fs[0]) + "\",\"" + JoinFields(fs[1..])
  }

  lemma {:induction false} JoinFieldsNoNewline(fs: seq<string>)
    requires fs != []
    ensures '\n' !in JoinFields(fs)
    decreases |fs|
  {
    EscapeNoNewline(fs[0]);
    if |fs| > 1 {
      JoinFieldsNoNewline(fs[1..]);
    }
  }

  function EncodeFields(fs: seq<string>): (r: string)
    ensures IsRecordLine(r) && r[0] == '{'
  {
    if fs == [] then "{}" else JoinFieldsNoNewline(fs); "{\"" + JoinFields(fs) + "}"
  }

  /** The fields after an opening quote, up to and including the closing brace. */
  function DecodeRest(s: string): Option<seq<string>>
    decreases |s|
  {
    match Unquote(s)
    case None => None
    case Some((v, rest)) =>
      if rest == "}" then Some([v])
      else if |rest| >= 2 && rest[0] == ',' && rest[1] == '"' then
        match DecodeRest(rest[2..])
        case None => None
        case Some(vs) => Some([v] + vs)
      else None
  }

  function DecodeFields(s: string): (r: Option<seq<string>>)
    ensures r.Some? ==> |s| > 0 && s[0] == '{'
  {
    if s == "{}" then Some([])
    else if |s| >= 2 && s[0] == '{' && s[1] == '"' then DecodeRest(s[2..])
    else None
  }

  lemma {:induction false} DecodeRestJoin(fs: seq<string>)
    requires fs != []
    ensures DecodeRest(JoinFields(fs) + "}") == Some(fs)
    decreases |fs|
  {
    if |fs| == 1 {
      JoinFieldsLast(fs);
      UnquoteEscape(fs[0], "}");
      assert fs == [fs[0]];
    } else {
      var after := JoinFieldsCons(fs);
      DecodeRestJoin(fs[1..]);
      DecodeRestStep(fs[0], after, fs[1..]);
      assert fs == [fs[0]] + fs[1..];
    }
  }

  lemma {:induction false} JoinFieldsLast(fs: seq<string>)
    requires |fs| == 1
    ensures JoinFields(fs) + "}" == Escape(fs[0]) + "\"" + "}"
  {
  }

  /** After the first field and its closing quote come `,"` and the rest of the fields. */
  lemma {:induction false} JoinFieldsCons(fs: seq<string>) returns (after: string)
    requires |fs| > 1
    ensures JoinFields(fs) + "}" == Escape(fs[0]) + "\"" + after
    ensures |after| >= 3 && after[0] == ',' && after[1] == '"' && after[2..] == JoinFields(fs[1..]) + "}"
  {
    after := ",\"" + JoinFields(fs[1..]) + "}";
    assert after[2..] == JoinFields(fs[1..]) + "}";
  }

  lemma {:induction false} DecodeRestStep(v: string, after: string, vs: seq<string>)
    requires |after| >= 3 && after[0] == ',' && after[1] == '"'
    requires DecodeRest(after[2..]) == Some(vs)
    ensures DecodeRest(Escape(v) + "\"" + after) == Some([v] + vs)
  {
    UnquoteEscape(v, after);
  }

  lemma {:induction false} FieldsRoundTrip(fs: seq<string>)
    ensures DecodeFields(EncodeFields(fs)) == Some(fs)
  {
    if fs != [] {
      var s := EncodeFields(fs);
      assert s[2..] == JoinFields(fs) + "}";
      DecodeRestJoin(fs);
    }
  }

  // ---- records -------------------------------------------------------------

  function StatusName(s: CarStatus): string {
    match s
    case Available => "available"
    case Reserved => "reserved"
    case Sold => "sold"
  }

  function StatusOfName(n: string): Option<CarStatus> {
    if n == "available" then Some(Available)
    else if n == "reserved" then Some(Reserved)
    else if n == "sold" then Some(Sold)
    else None
  }

  function EncodeModel(m: Model): (line: string)
    ensures IsRecordLine(line)
  {
    EncodeFields([IntToString(m.id), m.name, m.brand])
  }

  function DecodeModel(line: string): (r: Option<Model>)
    ensures r.Some? ==> |line| > 0
  {
    match DecodeFields(line)
    case Some(fs) =>
      if |fs| != 3 then None
      else (match ParseInt(fs[0])
            case Some(id) => Some(Model(id, fs[1], fs[2]))
            case None => None)
    case None => None
  }

  function EncodeCar(c: Car): (line: string)
    ensures IsRecordLine(line)
  {
    EncodeFields([c.vin, IntToString(c.model), c.price, c.dateStart, StatusName(c.status)])
  }

  function DecodeCar(line: string): (r: Option<Car>)
    ensures r.Some? ==> |line| > 0
  {
    match DecodeFields(line)
    case Some(fs) =>
      if |fs| != 5 then None
      else (match (ParseInt(fs[1]), StatusOfName(fs[4]))
            case (Some(model), Some(status)) => Some(Car(fs[0], model, fs[2], fs[3], status))
            case _ => None)
    case None => None
  }

  function EncodeSale(s: Sale): (line: string)
    ensures IsRecordLine(line)
  {
    EncodeFields([s.salesNumber, s.carVin, s.salesDate, s.cost])
  }

  function DecodeSale(line: string): (r: Option<Sale>)
    ensures r.Some? ==> |line| > 0
  {
    match DecodeFields(line)
    case Some(fs) =>
      if |fs| != 4 then None else Some(Sale(fs[0], fs[1], fs[2], fs[3]))
    case None => None
  }

  lemma {:induction false} ModelRoundTrip(m: Model)
    ensures DecodeModel(EncodeModel(m)) == Some(m)
  {
    FieldsRoundTrip([IntToString(m.id), m.name, m.brand]);
    ParseIntOfIntToString(m.id);
  }

  lemma {:induction false} CarRoundTrip(c: Car)
    ensures DecodeCar(EncodeCar(c)) == Some(c)
  {
    FieldsRoundTrip([c.vin, IntToString(c.model), c.price, c.dateStart, StatusName(c.status)]);
    ParseIntOfIntToString(c.model);
  }

  lemma {:induction false} SaleRoundTrip(s: Sale)
    ensures DecodeSale(EncodeSale(s)) == Some(s)
  {
    FieldsRoundTrip([s.salesNumber, s.carVin, s.salesDate, s.cost]);
  }

  /**
    Marking a car sold never lengthens its line: the status name `"sold"` is
    the shortest of the three.
   */
  lemma {:induction false} SoldIsNotLonger(c: Car)
    ensures |EncodeCar(c.(status := Sold))| <= |EncodeCar(c)|
  {
    var sold := c.(status := Sold);
    var fs := [sold.vin, IntToString(sold.model), sold.price, sold.dateStart, StatusName(Sold)];
    var gs := [c.vin, IntToString(c.model), c.price, c.dateStart, StatusName(c.status)];
    StatusNameEscapes(Sold);
    StatusNameEscapes(c.status);
    JoinFieldsNotLonger(fs, gs);
  }

  lemma {:induction false} EscapePlain(s: string)
    requires forall k :: 0 <= k < |s| ==> 'a' <= s[k] <= 'z'
    ensures Escape(s) == s
    decreases |s|
  {
    if s != [] {
      EscapePlain(s[1..]);
      assert s == [s[0]] + s[1..];
    }
  }

  /** A status name is plain lower-case letters, so escaping leaves it as it is. */
  lemma {:induction false} StatusNameEscapes(s: CarStatus)
    ensures Escape(StatusName(s)) == StatusName(s)
  {
    match s
    case Available => EscapePlain("available");
    case Reserved => EscapePlain("reserved");
    case Sold => EscapePlain("sold");
  }

  /** Fields that escape to no more characters give a line no longer. */
  lemma {:induction false} JoinFieldsNotLonger(fs: seq<string>, gs: seq<string>)
    requires |fs| == |gs| > 0
    requires forall i :: 0 <= i < |fs| ==> |Escape(fs[i])| <= |Escape(gs[i])|
    ensures |JoinFields(fs)| <= |JoinFields(gs)|
    decreases |fs|
  {
    if |fs| > 1 {
      assert forall i :: 0 <= i < |fs| - 1 ==> fs[1..][i] == fs[i + 1] && gs[1..][i] == gs[i + 1];
      JoinFieldsNotLonger(fs[1..], gs[1..]);
    }
  }

  /** Two field lists that differ only in their last field differ in length only by that field. */
  lemma {:induction false} JoinFieldsLastLength(front: seq<string>, x: string, y: string)
    ensures |JoinFields(front + [x])| + |Escape(y)| == |JoinFields(front + [y])| + |Escape(x)|
    decreases |front|
  {
    if front != [] {
      assert (front + [x])[1..] == front[1..] + [x];
      assert (front + [y])[1..] == front[1..] + [y];
      JoinFieldsLastLength(front[1..], x, y);
    }
  }

  /**
    A car's line changes length with its status by exactly the difference
    of the status names: `"available"` is five characters longer than
    `"sold"`, so reverting a sale lengthens the line.
   */
  lemma {:induction false} StatusChangeLength(c: Car, s: CarStatus)
    ensures |EncodeCar(c.(status := s))| + |StatusName(c.status)| == |EncodeCar(c)| + |StatusName(s)|
  {
    var front := [c.vin, IntToString(c.model), c.price, c.dateStart];
    assert [c.vin, IntToString(c.model), c.price, c.dateStart, StatusName(s)] == front + [StatusName(s)];
    assert [c.vin, IntToString(c.model), c.price, c.dateStart, StatusName(c.status)] == front + [StatusName(c.status)];
    StatusNameEscapes(s);
    StatusNameEscapes(c.status);
    JoinFieldsLastLength(front, StatusName(s), StatusName(c.status));
  }
}
