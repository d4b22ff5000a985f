/**
 * Train-type heuristics. The upstream API gives no authoritative train type,
 * so three independent signals are computed (from the train code, from the
 * route's end points, from the public message) and combined with a fixed
 * order of precedence. Every keyword test is a case-insensitive substring
 * test.
 */
module TrainTypes {
  import opened Wrappers
  import opened Strings
  import opened Frame

  /** The labels the heuristics produce; ECodeUnknown is the ambiguous "E" code marker. */
  datatype TrainType =
    | DART | Intercity | Freight | ECodeUnknown | Commuter | Special | Enterprise | Regional | Unknown
  {
    /** The label as it is stored in the `train_type` columns. */
    function Name(): string {
      match this
      case DART => "DART"
      case Intercity => "Intercity"
      case Freight => "Freight"
      case ECodeUnknown => "E_Code_Unknown"
      case Commuter => "Commuter"
      case Special => "Special"
      case Enterprise => "Enterprise"
      case Regional => "Regional"
      case Unknown => "Unknown"
    }
  }

  /** The eight labels a resolved train type may carry. */
  const ResolvedTypes: set<TrainType> :=
    {DART, Intercity, Freight, Enterprise, Commuter, Special, Regional, Unknown}

  // ---------------------------------------------------------------------
  // By code prefix
  // ---------------------------------------------------------------------

  /** The first letter of a code and the type it stands for. */
  const CodePrefixes: seq<(char, TrainType)> :=
    [('D', DART), ('A', Intercity), ('P', Freight), ('E', ECodeUnknown),
     ('C', Commuter), ('M', Special), ('L', Special)]

  /** `str(code).upper().strip()`. */
  function NormalizedCode(code: string): string {
    Strip(Upper(code))
  }

  /**
   * The type a code's first letter stands for: the entry of CodePrefixes for
   * that letter, and Unknown for a letter the table does not list.
   */
  function TypeOfLetter(c: char): (r: TrainType)
    ensures r != Unknown ==> (c, r) in CodePrefixes
    ensures forall p :: p in CodePrefixes && c == p.0 ==> r == p.1
  {
    // `c.startswith(x)` for a one-letter x is a test of the first character
    if c == 'D' then DART
    else if c == 'A' then Intercity
    else if c == 'P' then Freight
    else if c == 'E' then ECodeUnknown
    else if c == 'C' then Commuter
    else if c == 'M' || c == 'L' then Special
    else Unknown
  }

  /**
   * `train_type_from_code`: a missing or empty code is Unknown; otherwise the
   * first letter of the normalised code is looked up in CodePrefixes, and a
   * letter not in the table is Unknown.
   */
  function TypeFromCode(code: Option<string>): (r: TrainType)
    ensures code.None? || code == Some("") ==> r == Unknown
    ensures r != Unknown ==>
      code.Some? && |NormalizedCode(code.value)| > 0 && (NormalizedCode(code.value)[0], r) in CodePrefixes
    ensures forall p :: (p in CodePrefixes && code.Some? && |NormalizedCode(code.value)| > 0
      && NormalizedCode(code.value)[0] == p.0) ==> r == p.1
  {
    if code.None? || code.value == "" then Unknown
    else
      var c := NormalizedCode(code.value);
      if |c| == 0 then Unknown else TypeOfLetter(c[0])
  }

  lemma UpperIdempotent(s: string)
    ensures Upper(Upper(s)) == Upper(s)
  {
  }

  lemma UpperOfLower(s: string)
    ensures Upper(Lower(s)) == Upper(s)
  {
  }

  /** The code classifier ignores letter case. */
  lemma CodeIgnoresCase(code: string)
    ensures TypeFromCode(Some(Lower(code))) == TypeFromCode(Some(code))
    ensures TypeFromCode(Some(Upper(code))) == TypeFromCode(Some(code))
  {
    UpperOfLower(code);
    UpperIdempotent(code);
  }

  // ---------------------------------------------------------------------
  // By route
  // ---------------------------------------------------------------------

  const BelfastKeywords: seq<string> := ["BELFAST", "CENTRAL"]
  const DublinKeywords: seq<string> := ["DUBLIN", "CONNOLLY"]
  const DartStations: seq<string> := [
    "MALAHIDE", "PORTMARNOCK", "CLONGRIFFIN", "HOWTH", "SUTTON", "LAYTOWN",
    "BALBRIGGAN", "SKERRIES", "MOUNT MERRION", "BAYSIDE", "KILLESTER", "HARMONSTOWN",
    "RAHENY", "KILBARRACK", "CLONTARF", "CONNOLLY", "TARA STREET", "PEARSE", "GRAND CANAL",
    "LANSDOWNE", "SANDYMOUNT", "SYDNEY PARADE", "BOOTERSTOWN",
    "BLACKROCK", "SEAPOINT", "SALTHILL", "DUN LAOGHAIRE", "SANDYCOVE",
    "GLENAGEARY", "DALKEY", "KILLINEY", "SHANKILL", "BRAY", "GREYSTONES", "DROGHEDA"]
  const MajorCities: seq<string> := ["CORK", "GALWAY", "LIMERICK", "WATERFORD", "SLIGO", "TRALEE"]
  const DublinTerminals: seq<string> := ["CONNOLLY", "HEUSTON"]

  /** Belfast at one end and Dublin at the other, in either direction (upper-cased names). */
  predicate EnterprisePair(o: string, d: string) {
    (AnyIn(BelfastKeywords, o) && AnyIn(DublinKeywords, d))
    || (AnyIn(DublinKeywords, o) && AnyIn(BelfastKeywords, d))
  }

  /** Both ends name a DART station. */
  predicate DartPair(o: string, d: string) {
    AnyIn(DartStations, o) && AnyIn(DartStations, d)
  }

  /** A major city at one end and a Dublin terminal at the other. */
  predicate IntercityPair(o: string, d: string) {
    (AnyIn(MajorCities, o) && AnyIn(DublinTerminals, d))
    || (AnyIn(DublinTerminals, o) && AnyIn(MajorCities, d))
  }

  /** A Dublin terminal at either end. */
  predicate AtTerminal(o: string, d: string) {
    AnyIn(DublinTerminals, o) || AnyIn(DublinTerminals, d)
  }

  /**
   * `train_type_from_route`: Unknown exactly when an end point is missing;
   * otherwise the rules are tried in the order Enterprise, DART, Intercity,
   * Commuter, and Regional is what is left.
   */
  function TypeFromRoute(origin: Option<string>, destination: Option<string>): (r: TrainType)
    ensures r == Unknown <==> origin.None? || destination.None?
    ensures r in {Enterprise, DART, Intercity, Commuter, Regional, Unknown}
  {
    if origin.None? || destination.None? then Unknown
    else
      var o := Upper(origin.value);
      var d := Upper(destination.value);
      if EnterprisePair(o, d) then Enterprise
      else if DartPair(o, d) then DART
      else if IntercityPair(o, d) then Intercity
      else if AtTerminal(o, d) then Commuter
      else Regional
  }

  /**
   * The order of the route rules: each rule decides only when every rule
   * before it failed, so a Belfast-Dublin run is Enterprise even between
   * DART stations, and a run between DART stations is DART even when it
   * touches a terminal and a major city.
   */
  lemma RoutePrecedence(origin: string, destination: string)
    ensures var o, d, r := Upper(origin), Upper(destination), TypeFromRoute(Some(origin), Some(destination));
      && (EnterprisePair(o, d) ==> r == Enterprise)
      && (!EnterprisePair(o, d) && DartPair(o, d) ==> r == DART)
      && (!EnterprisePair(o, d) && !DartPair(o, d) && IntercityPair(o, d) ==> r == Intercity)
      && (!EnterprisePair(o, d) && !DartPair(o, d) && !IntercityPair(o, d) && AtTerminal(o, d) ==> r == Commuter)
      && (!EnterprisePair(o, d) && !DartPair(o, d) && !AtTerminal(o, d) ==> r == Regional)
  {
  }

  /** Swapping origin and destination never changes the route type. */
  lemma RouteSymmetric(origin: Option<string>, destination: Option<string>)
    ensures TypeFromRoute(origin, destination) == TypeFromRoute(destination, origin)
  {
  }

  // ---------------------------------------------------------------------
  // By public message
  // ---------------------------------------------------------------------

  const MessageKeywords: seq<string> := ["DART", "ENTERPRISE", "INTERCITY"]

  /**
   * `train_type_from_message`: the first of DART, ENTERPRISE, INTERCITY that
   * occurs in the upper-cased message decides; no hit, or no message, is
   * Unknown.
   */
  function TypeFromMessage(message: Option<string>): (r: TrainType)
    ensures r in {DART, Enterprise, Intercity, Unknown}
    ensures r == Unknown <==> message.None? || !AnyIn(MessageKeywords, Upper(message.value))
    ensures r == DART <==> message.Some? && Contains(Upper(message.value), "DART")
    ensures r == Enterprise <==>
      (message.Some? && !Contains(Upper(message.value), "DART") && Contains(Upper(message.value), "ENTERPRISE"))
    ensures r == Intercity <==>
      (message.Some? && !Contains(Upper(message.value), "DART") && !Contains(Upper(message.value), "ENTERPRISE")
       && Contains(Upper(message.value), "INTERCITY"))
  {
    if message.None? then Unknown
    else
      var m := Upper(message.value);
      if Contains(m, "DART") then DART
      else if Contains(m, "ENTERPRISE") then Enterprise
      else if Contains(m, "INTERCITY") then Intercity
      else Unknown
  }

  // ---------------------------------------------------------------------
  // The resolver
  // ---------------------------------------------------------------------

  /**
   * The order of precedence over the signals that are available (None: the
   * frame lacks the columns the signal needs): the route type, where it is
   * Unknown the code type, the E-code marker cleared to Unknown, and where
   * the result is still Unknown the message type.
   */
  function Resolve(code: Option<TrainType>, route: Option<TrainType>, message: Option<TrainType>): (r: TrainType)
    requires message != Some(ECodeUnknown)
    ensures r != ECodeUnknown
    ensures route.Some? && route.value !in {Unknown, ECodeUnknown} ==> r == route.value
    ensures (route.None? || route == Some(Unknown)) && code.Some? && code.value !in {Unknown, ECodeUnknown}
      ==> r == code.value
    ensures (route.None? || route.value in {Unknown, ECodeUnknown}) && (code.None? || code.value in {Unknown, ECodeUnknown})
      ==> r == message.GetOr(Unknown)
  {
    var primary :=
      if route.Some? then (if route.value == Unknown && code.Some? then code.value else route.value)
      else code.GetOr(Unknown);
    var cleared := if primary == ECodeUnknown then Unknown else primary;
    if cleared == Unknown && message.Some? then message.value else cleared
  }

  /** How a train type is stored in a cell. */
  function TypeCell(t: TrainType): Cell {
    Some(Text(t.Name()))
  }

  const UnknownCell: Cell := TypeCell(Unknown)
  const ECodeCell: Cell := TypeCell(ECodeUnknown)

  /** The code signal of a row: the `train_type_code` cell `add_train_types` writes. */
  function CodeSignal(columns: set<string>, row: Row): Option<TrainType> {
    if "TrainCode" in columns then Some(TypeFromCode(CellText(Get(row, "TrainCode")))) else None
  }

  /** The route signal of a row: the `route_type` cell `add_train_types` writes. */
  function RouteSignal(columns: set<string>, row: Row): Option<TrainType> {
    if "TrainOrigin" in columns && "TrainDestination" in columns then
      Some(TypeFromRoute(CellText(Get(row, "TrainOrigin")), CellText(Get(row, "TrainDestination"))))
    else None
  }

  /** The message signal of a row: the `message_type` cell `add_train_types` writes. */
  function MessageSignal(columns: set<string>, row: Row): Option<TrainType> {
    if "PublicMessage" in columns then Some(TypeFromMessage(CellText(Get(row, "PublicMessage")))) else None
  }

  const DerivedTypeColumns: set<string> := {"train_type_code", "route_type", "message_type", "train_type"}

  /**
   * A signal column of the working copy: written from its source columns when
   * they exist, otherwise whatever the input frame already held under that
   * name (None: the copy has no such column).
   */
  function SignalColumn(columns: set<string>, row: Row, name: string, signal: Option<TrainType>): Option<Cell> {
    if signal.Some? then Some(TypeCell(signal.value))
    else if name in columns then Some(Get(row, name))
    else None
  }

  /**
   * The masked assignments of `add_train_types`, cell by cell: `train_type`
   * starts as the route column (falling back to the code column where it
   * reads Unknown) or, without a route column, as the code column or
   * Unknown; E_Code_Unknown becomes Unknown; Unknown takes the message column.
   */
  function ResolveCells(code: Option<Cell>, route: Option<Cell>, message: Option<Cell>): Cell {
    var primary :=
      if route.Some? then (if route.value == UnknownCell && code.Some? then code.value else route.value)
      else code.GetOr(UnknownCell);
    var cleared := if primary == ECodeCell then UnknownCell else primary;
    if cleared == UnknownCell && message.Some? then message.value else cleared
  }

  lemma NameInjective(a: TrainType, b: TrainType)
    ensures a.Name() == b.Name() ==> a == b
  {
  }

  function MapType(t: Option<TrainType>): Option<Cell> {
    if t.Some? then Some(TypeCell(t.value)) else None
  }

  /** On cells that hold labels, the masked assignments compute Resolve. */
  lemma {:induction false} ResolveCellsIsResolve(code: Option<TrainType>, route: Option<TrainType>, message: Option<TrainType>)
    requires message != Some(ECodeUnknown)
    ensures ResolveCells(MapType(code), MapType(route), MapType(message)) == TypeCell(Resolve(code, route, message))
  {
    forall a: TrainType, b: TrainType ensures TypeCell(a) == TypeCell(b) ==> a == b {
      NameInjective(a, b);
    }
  }

  /** The row of `add_train_types`: the signal columns and `train_type`, added to a copy. */
  function TypeRow(columns: set<string>, row: Row): (r: Row)
    ensures "train_type" in r
    ensures forall c :: c in row && c !in DerivedTypeColumns ==> c in r && r[c] == row[c]
    ensures row.Keys == columns ==> r.Keys == TypeColumns(columns)
  {
    var code := SignalColumn(columns, row, "train_type_code", CodeSignal(columns, row));
    var route := SignalColumn(columns, row, "route_type", RouteSignal(columns, row));
    var message := SignalColumn(columns, row, "message_type", MessageSignal(columns, row));
    WithTypes(row, MapType(CodeSignal(columns, row)), MapType(RouteSignal(columns, row)),
      MapType(MessageSignal(columns, row)), ResolveCells(code, route, message))
  }

  /** A row with the signal cells that exist and `train_type` written into it. */
  function WithTypes(row: Row, code: Option<Cell>, route: Option<Cell>, message: Option<Cell>, trainType: Cell): (r: Row)
    ensures r.Keys == row.Keys + (if code.Some? then {"train_type_code"} else {})
      + (if route.Some? then {"route_type"} else {}) + (if message.Some? then {"message_type"} else {}) + {"train_type"}
    ensures r["train_type"] == trainType
    ensures code.Some? ==> r["train_type_code"] == code.value
    ensures route.Some? ==> r["route_type"] == route.value
    ensures message.Some? ==> r["message_type"] == message.value
    ensures forall c :: c in row && c !in DerivedTypeColumns ==> r[c] == row[c]
  {
    var r1 := if code.Some? then row["train_type_code" := code.value] else row;
    var r2 := if route.Some? then r1["route_type" := route.value] else r1;
    var r3 := if message.Some? then r2["message_type" := message.value] else r2;
    r3["train_type" := trainType]
  }

  /** The columns of the frame `add_train_types` returns. */
  function TypeColumns(columns: set<string>): set<string> {
    columns
    + (if "TrainCode" in columns then {"train_type_code"} else {})
    + (if "TrainOrigin" in columns && "TrainDestination" in columns then {"route_type"} else {})
    + (if "PublicMessage" in columns then {"message_type"} else {})
    + {"train_type"}
  }

  /**
   * `add_train_types`: an empty frame is returned as it is; otherwise every
   * row gains the signal columns its sources allow and `train_type`, and
   * keeps every other column unchanged.
   */
  function AddTrainTypes(t: Table): (r: Table)
    ensures Empty(t) ==> r == t
    ensures |r.rows| == |t.rows|
    ensures !Empty(t) ==> r.columns == TypeColumns(t.columns)
    ensures !Empty(t) ==> forall i :: 0 <= i < |t.rows| ==> "train_type" in r.rows[i]
    ensures forall i, c :: 0 <= i < |t.rows| && c in t.rows[i] && c !in DerivedTypeColumns ==>
      c in r.rows[i] && r.rows[i][c] == t.rows[i][c]
    ensures WellFormed(t) ==> WellFormed(r)
  {
    if Empty(t) then t
    else Table(TypeColumns(t.columns), seq(|t.rows|, i requires 0 <= i < |t.rows| => TypeRow(t.columns, t.rows[i])))
  }

  /** The input frame holds none of the columns `add_train_types` writes. */
  predicate FreshColumns(columns: set<string>) {
    columns !! DerivedTypeColumns
  }

  /** On a row without signal columns of its own, `train_type` is Resolve of the row's signals. */
  lemma TypeRowResolves(columns: set<string>, row: Row)
    requires FreshColumns(columns)
    ensures TypeRow(columns, row)["train_type"]
      == TypeCell(Resolve(CodeSignal(columns, row), RouteSignal(columns, row), MessageSignal(columns, row)))
  {
    var c, rt, m := CodeSignal(columns, row), RouteSignal(columns, row), MessageSignal(columns, row);
    assert SignalColumn(columns, row, "train_type_code", c) == MapType(c);
    assert SignalColumn(columns, row, "route_type", rt) == MapType(rt);
    assert SignalColumn(columns, row, "message_type", m) == MapType(m);
    ResolveCellsIsResolve(c, rt, m);
  }

  /** Every label but the E-code marker is one of the eight resolved labels. */
  lemma ResolvedTypesAreAllButECode(k: TrainType)
    ensures k in ResolvedTypes <==> k != ECodeUnknown
  {
  }

  /**
   * On a frame without signal columns of its own, `train_type` of every row
   * is Resolve applied to the row's signals, so it is one of the eight
   * labels and never E_Code_Unknown.
   */
  lemma AddTrainTypesResolves(t: Table, i: nat)
    requires !Empty(t) && FreshColumns(t.columns) && i < |t.rows|
    ensures var row := t.rows[i];
      AddTrainTypes(t).rows[i]["train_type"]
        == TypeCell(Resolve(CodeSignal(t.columns, row), RouteSignal(t.columns, row), MessageSignal(t.columns, row)))
    ensures AddTrainTypes(t).rows[i]["train_type"] != ECodeCell
    ensures exists k :: k in ResolvedTypes && AddTrainTypes(t).rows[i]["train_type"] == TypeCell(k)
  {
    var row := t.rows[i];
    TypeRowResolves(t.columns, row);
    var k := Resolve(CodeSignal(t.columns, row), RouteSignal(t.columns, row), MessageSignal(t.columns, row));
    NameInjective(k, ECodeUnknown);
    ResolvedTypesAreAllButECode(k);
  }

  /**
   * Whenever the frame has both route columns and a row has both end points,
   * the row's `train_type` is its route type: the route classifier never says
   * Unknown then, so neither the code nor the message is consulted.
   */
  lemma RouteTypeIsPrimary(t: Table, i: nat)
    requires !Empty(t) && FreshColumns(t.columns) && i < |t.rows|
    requires "TrainOrigin" in t.columns && "TrainDestination" in t.columns
    requires Get(t.rows[i], "TrainOrigin").Some? && Get(t.rows[i], "TrainDestination").Some?
    ensures AddTrainTypes(t).rows[i]["train_type"]
      == TypeCell(TypeFromRoute(CellText(Get(t.rows[i], "TrainOrigin")), CellText(Get(t.rows[i], "TrainDestination"))))
  {
    AddTrainTypesResolves(t, i);
  }

  // ---------------------------------------------------------------------
  // Worked examples
  // ---------------------------------------------------------------------

  lemma {:induction false} TooLong(s: string, k: string)
    requires |k| > |s|
    ensures !Contains(s, k)
    decreases |s|
  {
    if |s| > 0 {
      TooLong(s[1..], k);
    }
  }

  lemma CodeA101()
    ensures TypeFromCode(Some("A101")) == Intercity
  {
    assert Upper("A101") == "A101";
    StripUnchanged("A101");
  }

  lemma BelfastDublinPair()
    ensures EnterprisePair("BELFAST CENTRAL", "DUBLIN CONNOLLY")
  {
    ContainsAt("BELFAST CENTRAL", "BELFAST", 0);
    ContainsAt("DUBLIN CONNOLLY", "DUBLIN", 0);
  }

  lemma BelfastDublinRoute()
    ensures TypeFromRoute(Some("Belfast Central"), Some("Dublin Connolly")) == Enterprise
  {
    assert Upper("Belfast Central") == "BELFAST CENTRAL";
    assert Upper("Dublin Connolly") == "DUBLIN CONNOLLY";
    BelfastDublinPair();
  }

  /**
   * Code A101 from Belfast Central to Dublin Connolly: the code alone says
   * Intercity, the route says Enterprise, and the route wins.
   */
  lemma EnterpriseOverridesCode()
    ensures TypeFromCode(Some("A101")) == Intercity
    ensures Resolve(Some(TypeFromCode(Some("A101"))),
                    Some(TypeFromRoute(Some("Belfast Central"), Some("Dublin Connolly"))),
                    None) == Enterprise
  {
    CodeA101();
    BelfastDublinRoute();
  }

  /** Neither key of a two-keyword list occurs: each lacks a character of `s`. */
  lemma NeitherOf(keys: seq<string>, s: string, c0: char, c1: char)
    requires |keys| == 2 && c0 in keys[0] && c0 !in s && c1 in keys[1] && c1 !in s
    ensures !AnyIn(keys, s)
  {
    Lacks(s, keys[0], c0);
    Lacks(s, keys[1], c1);
  }

  lemma ConnollyMalahideNotEnterprise()
    ensures !EnterprisePair("CONNOLLY", "MALAHIDE")
  {
    NeitherOf(BelfastKeywords, "CONNOLLY", 'B', 'E');
    NeitherOf(BelfastKeywords, "MALAHIDE", 'B', 'C');
  }

  lemma DartStation(s: string)
    requires s in DartStations
    ensures AnyIn(DartStations, s)
  {
    ContainsAt(s, s, 0);
  }

  lemma ConnollyMalahidePair()
    ensures !EnterprisePair("CONNOLLY", "MALAHIDE") && DartPair("CONNOLLY", "MALAHIDE")
  {
    ConnollyMalahideNotEnterprise();
    DartStation("CONNOLLY");
    DartStation("MALAHIDE");
  }

  /** Connolly to Malahide: CONNOLLY is in the DART list, so the run is DART. */
  lemma ConnollyMalahideIsDart()
    ensures TypeFromRoute(Some("Connolly"), Some("Malahide")) == DART
  {
    assert Upper("Connolly") == "CONNOLLY";
    assert Upper("Malahide") == "MALAHIDE";
    ConnollyMalahidePair();
  }

  const ShortDartStations: seq<string> := ["HOWTH", "SUTTON", "RAHENY", "PEARSE", "DALKEY", "BRAY"]

  lemma DartNameLengths()
    ensures forall k :: k in DartStations ==> |k| > 6 || k in ShortDartStations
  {
  }

  lemma TraleeLacksLongDart()
    ensures forall k :: k in DartStations && |k| > 6 ==> !Contains("TRALEE", k)
  {
    forall k | k in DartStations && |k| > 6 ensures !Contains("TRALEE", k) {
      TooLong("TRALEE", k);
    }
  }

  lemma TraleeLacksShortDart()
    ensures forall k :: k in ShortDartStations ==> !Contains("TRALEE", k)
  {
    TraleeLacksNorthDart();
    TraleeLacksSouthDart();
  }

  lemma TraleeLacksNorthDart()
    ensures !Contains("TRALEE", "HOWTH") && !Contains("TRALEE", "SUTTON") && !Contains("TRALEE", "RAHENY")
  {
    Lacks("TRALEE", "HOWTH", 'H');
    Lacks("TRALEE", "SUTTON", 'S');
    Lacks("TRALEE", "RAHENY", 'H');
  }

  lemma TraleeLacksSouthDart()
    ensures !Contains("TRALEE", "PEARSE") && !Contains("TRALEE", "DALKEY") && !Contains("TRALEE", "BRAY")
  {
    Lacks("TRALEE", "PEARSE", 'P');
    Lacks("TRALEE", "DALKEY", 'D');
    Lacks("TRALEE", "BRAY", 'B');
  }

  lemma TraleeNotDart()
    ensures !AnyIn(DartStations, "TRALEE")
  {
    DartNameLengths();
    TraleeLacksLongDart();
    TraleeLacksShortDart();
  }

  lemma TraleeHeustonPair()
    ensures !EnterprisePair("TRALEE", "HEUSTON") && !DartPair("TRALEE", "HEUSTON")
    ensures IntercityPair("TRALEE", "HEUSTON")
  {
    TraleeHeustonNotEnterprise();
    TraleeNotDart();
    ContainsAt("TRALEE", "TRALEE", 0);
    ContainsAt("HEUSTON", "HEUSTON", 0);
  }

  lemma TraleeHeustonNotEnterprise()
    ensures !EnterprisePair("TRALEE", "HEUSTON")
  {
    NeitherOf(BelfastKeywords, "TRALEE", 'B', 'C');
    NeitherOf(BelfastKeywords, "HEUSTON", 'B', 'C');
  }

  /** Tralee to Heuston: a major city and a Dublin terminal, so Intercity. */
  lemma TraleeHeustonIsIntercity()
    ensures TypeFromRoute(Some("Tralee"), Some("Heuston")) == Intercity
  {
    assert Upper("Tralee") == "TRALEE";
    assert Upper("Heuston") == "HEUSTON";
    TraleeHeustonPair();
  }
}
