/**
 * The two string-backed enumerations of the data model, `MaintainerStatus`
 * and `Maturity`, with the database hooks gorm calls on them: `IsValid`,
 * `Value` (the `driver.Valuer` used when a record is written) and `Scan`
 * (the `sql.Scanner` used when a record is read, writing through its pointer
 * receiver). model/main.go holds them; db/main.go:21-99 is an identical copy.
 */
module Model {
  import opened Wrappers

  /** What crosses the database-driver boundary: a Go string, or a value of some other dynamic type. */
  datatype DriverValue = Text(s: string) | NonText(typeName: string)

  datatype EnumError =
    | InvalidMaintainerStatus(name: string)
    | InvalidMaturity(name: string)
    | CannotScan(typeName: string, target: string)

  /** The type assertion `value.(string)` that opens both `Scan` methods. */
  function AsString(value: DriverValue, target: string): (r: Result<string, EnumError>)
    ensures r.Ok? <==> value.Text?
    ensures value.Text? ==> r.value == value.s
    ensures value.NonText? ==> r.error == CannotScan(value.typeName, target)
  {
    match value
    case Text(s) => Ok(s)
    case NonText(t) => Err(CannotScan(t, target))
  }

  datatype MaintainerStatus = MaintainerStatus(name: string)
  {
    predicate IsValid()
    {
      this == Active || this == Emeritus || this == Retired
    }

    /** Only a known status may be written; its text is what is stored. */
    function Value(): (r: Result<DriverValue, EnumError>)
      ensures r.Ok? <==> IsValid()
      ensures r.Ok? ==> r.value == Text(name)
      ensures r.Err? ==> r.error == InvalidMaintainerStatus(name)
    {
      if !IsValid() then Err(InvalidMaintainerStatus(name)) else Ok(Text(name))
    }
  }

  const Active := MaintainerStatus("Active")
  const Emeritus := MaintainerStatus("Emeritus")
  const Retired := MaintainerStatus("Retired")

  /** The known statuses are exactly the three declared constants. */
  lemma MaintainerStatusValidity(s: MaintainerStatus)
    ensures s.IsValid() <==> s.name in {"Active", "Emeritus", "Retired"}
  {
  }

  datatype Maturity = Maturity(name: string)
  {
    predicate IsValid()
    {
      this == Sandbox || this == Incubating || this == Graduated || this == Archived
    }

    /** Only a known maturity may be written; its text is what is stored. */
    function Value(): (r: Result<DriverValue, EnumError>)
      ensures r.Ok? <==> IsValid()
      ensures r.Ok? ==> r.value == Text(name)
      ensures r.Err? ==> r.error == InvalidMaturity(name)
    {
      if !IsValid() then Err(InvalidMaturity(name)) else Ok(Text(name))
    }
  }

  const Sandbox := Maturity("Sandbox")
  const Incubating := Maturity("Incubating")
  const Graduated := Maturity("Graduated")
  const Archived := Maturity("Archived")

  /** The known maturities are exactly the four declared constants. */
  lemma MaturityValidity(m: Maturity)
    ensures m.IsValid() <==> m.name in {"Sandbox", "Incubating", "Graduated", "Archived"}
  {
  }

  /** A `*MaintainerStatus`: the variable `Scan` writes through. */
  class MaintainerStatusVar {
    var status: MaintainerStatus

    constructor (initial: MaintainerStatus)
      ensures status == initial
    {
      status := initial;
    }

    /** Any string is stored as it is, known or not; anything else is refused and the variable kept. */
    method Scan(value: DriverValue) returns (err: Option<EnumError>)
      modifies this
      ensures value.Text? ==> err == None && status == MaintainerStatus(value.s)
      ensures value.NonText? ==> err == Some(CannotScan(value.typeName, "MaintainerStatus"))
      ensures value.NonText? ==> status == old(status)
    {
      match AsString(value, "MaintainerStatus")
      case Ok(v) =>
        status := MaintainerStatus(v);
        err := None;
      case Err(e) =>
        err := Some(e);
    }
  }

  /** A `*Maturity`: the variable `Scan` writes through. */
  class MaturityVar {
    var maturity: Maturity

    constructor (initial: Maturity)
      ensures maturity == initial
    {
      maturity := initial;
    }

    /** Any string is stored as it is, known or not; anything else is refused and the variable kept. */
    method Scan(value: DriverValue) returns (err: Option<EnumError>)
      modifies this
      ensures value.Text? ==> err == None && maturity == Maturity(value.s)
      ensures value.NonText? ==> err == Some(CannotScan(value.typeName, "Maturity"))
      ensures value.NonText? ==> maturity == old(maturity)
    {
      match AsString(value, "Maturity")
      case Ok(v) =>
        maturity := Maturity(v);
        err := None;
      case Err(e) =>
        err := Some(e);
    }
  }

  /** Writing a known status and reading it back into any variable gives the same status. */
  method StatusRoundTrip(x: MaintainerStatus, before: MaintainerStatus) returns (y: MaintainerStatus)
    requires x.IsValid()
    ensures y == x
  {
    var stored := x.Value();
    var cell := new MaintainerStatusVar(before);
    var err := cell.Scan(stored.value);
    y := cell.status;
  }

  /** Writing a known maturity and reading it back into any variable gives the same maturity. */
  method MaturityRoundTrip(x: Maturity, before: Maturity) returns (y: Maturity)
    requires x.IsValid()
    ensures y == x
  {
    var stored := x.Value();
    var cell := new MaturityVar(before);
    var err := cell.Scan(stored.value);
    y := cell.maturity;
  }

  /** Scan does not validate: an unknown string is read back fine, and only writing it again fails. */
  method ScanUnknownMaturity(name: string, before: Maturity) returns (y: Maturity, err: Option<EnumError>, rewrite: Result<DriverValue, EnumError>)
    requires !Maturity(name).IsValid()
    ensures err == None && y == Maturity(name)
    ensures rewrite == Err(InvalidMaturity(name))
  {
    var cell := new MaturityVar(before);
    err := cell.Scan(Text(name));
    y := cell.maturity;
    rewrite := y.Value();
  }
}
