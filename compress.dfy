/**
 The compact wire records sent to the panel (compress.go): lenient typed
 readers over a decoded JSON object, each returning a default and a "warned"
 flag in place of a log line, and the index-by-index compression of player
 and on-duty records.
 */
module Compress {
  import opened Values
  import opened Decimal

  /** What a lenient reader returns: the value, and whether it logged a warning. */
  datatype Read<T> = Read(value: T, warned: bool)

  /** A key that is absent or holds JSON null: every reader returns its default
      silently in that case. */
  predicate Missing(m: Fields, key: string)
  {
    Lookup(m, key).Null?
  }

  // ---------------------------------------------------------------------------
  // Number conversions

  /** Go's `int64(f)` on a float64: truncation toward zero. */
  function TruncateTowardZero(f: real): (n: int)
    ensures 0.0 <= f ==> 0 <= n && n as real <= f < n as real + 1.0
    ensures f < 0.0 ==> n <= 0 && n as real - 1.0 < f <= n as real
  {
    if f >= 0.0 then f.Floor else -((-f).Floor)
  }

  /** Rounding to the nearest integer with ties to the even neighbour, as
      `strconv.FormatFloat(f, 'f', 0, 64)` rounds the exact value. */
  function RoundHalfEven(f: real): (n: int)
    ensures -0.5 <= n as real - f <= 0.5
    ensures (n as real - f == 0.5 || f - n as real == 0.5) ==> n % 2 == 0
  {
    var fl := f.Floor;
    var frac := f - fl as real;
    if frac < 0.5 then fl
    else if frac > 0.5 then fl + 1
    else if fl % 2 == 0 then fl else fl + 1
  }

  /** `fmt.Sprintf("%.0f", f)`: a '-' exactly for negative numbers (so a small
      negative number prints as "-0"), then the rounded magnitude in decimal
      without leading zeros. */
  function FormatFixed0(f: real): (s: string)
    ensures f < 0.0 ==> |s| >= 2 && s[0] == '-' && AllDigits(s[1..])
                        && DecimalValue(s[1..]) == -RoundHalfEven(f)
    ensures 0.0 <= f ==> AllDigits(s) && DecimalValue(s) == RoundHalfEven(f)
    ensures 0.0 <= f ==> |s| >= 1 && (s[0] == '0' ==> s == "0")
    ensures f < 0.0 ==> (s[1] == '0' ==> s == "-0")
  {
    var n := RoundHalfEven(f);
    if f < 0.0 then
      NatStringRoundTrip(-n);
      assert ("-" + NatString(-n))[1..] == NatString(-n);
      "-" + NatString(-n)
    else
      NatStringRoundTrip(n);
      NatString(n)
  }

  // ---------------------------------------------------------------------------
  // Lenient readers

  /** getInt64: an int64 as it is, a float64 truncated toward zero, otherwise 0;
      a present, non-null value of another type warns unless `ignoreInvalid`. */
  function GetInt64(key: string, m: Fields, ignoreInvalid: bool): (r: Read<int>)
    ensures Lookup(m, key).Int? ==> r == Read(m[key].i, false)
    ensures Lookup(m, key).Num? ==> r == Read(TruncateTowardZero(m[key].f), false)
    ensures !Lookup(m, key).Int? && !Lookup(m, key).Num? ==> r.value == 0
    ensures r.warned <==> !Missing(m, key) && !m[key].Int? && !m[key].Num? && !ignoreInvalid
  {
    match Lookup(m, key)
    case Null => Read(0, false)
    case Int(i) => Read(i, false)
    case Num(f) => Read(TruncateTowardZero(f), false)
    case _ => Read(0, !ignoreInvalid)
  }

  /** getString: a string as it is; with `tryFloat`, a float64 printed with
      "%.0f"; any other present, non-null value gives "" and a warning. */
  function GetString(key: string, m: Fields, tryFloat: bool): (r: Read<string>)
    ensures Lookup(m, key).Str? ==> r == Read(m[key].s, false)
    ensures Lookup(m, key).Num? && tryFloat ==> r == Read(FormatFixed0(m[key].f), false)
    ensures !Lookup(m, key).Str? && !(Lookup(m, key).Num? && tryFloat) ==> r.value == ""
    ensures r.warned <==> !Missing(m, key) && !m[key].Str? && !(m[key].Num? && tryFloat)
  {
    match Lookup(m, key)
    case Null => Read("", false)
    case Str(s) => Read(s, false)
    case Num(f) => if tryFloat then Read(FormatFixed0(f), false) else Read("", true)
    case _ => Read("", true)
  }

  /** getBool: the stored boolean, otherwise false; warns only for a present,
      non-null value that is not a boolean. */
  function GetBool(key: string, m: Fields): (r: Read<bool>)
    ensures r.value <==> Lookup(m, key) == Bool(true)
    ensures r.warned <==> !Missing(m, key) && !m[key].Bool?
  {
    match Lookup(m, key)
    case Null => Read(false, false)
    case Bool(b) => Read(b, false)
    case _ => Read(false, true)
  }

  /** getMap: the nested object when the value is one, otherwise nil; a boolean
      (the panel's "no vehicle" marker) is not worth a warning. */
  function GetMap(key: string, m: Fields): (r: Read<Option<Fields>>)
    ensures r.value.Some? <==> Lookup(m, key).Obj?
    ensures r.value.Some? ==> r.value.value == m[key].fields
    ensures r.warned <==> !Missing(m, key) && !m[key].Obj? && !m[key].Bool?
  {
    match Lookup(m, key)
    case Null => Read(None, false)
    case Obj(fields) => Read(Some(fields), false)
    case Bool(_) => Read(None, false)
    case _ => Read(None, true)
  }

  /** A value a reader stored in a map with the matching type is read back
      exactly and without a warning, whatever else the map holds. */
  lemma ReadersReadBackTypedValues(m: Fields, key: string, i: int, f: real, s: string, b: bool, o: Fields)
    ensures GetInt64(key, m[key := Int(i)], false) == Read(i, false)
    ensures GetInt64(key, m[key := Num(i as real)], false) == Read(i, false)
    ensures GetString(key, m[key := Str(s)], false) == Read(s, false)
    ensures GetBool(key, m[key := Bool(b)]) == Read(b, false)
    ensures GetMap(key, m[key := Obj(o)]) == Read(Some(o), false)
  {
  }

  /** An absent key and an explicit null read alike: the default, silently. */
  lemma ReadersDefaultOnMissing(m: Fields, key: string, ignoreInvalid: bool, tryFloat: bool)
    requires Missing(m, key)
    ensures GetInt64(key, m, ignoreInvalid) == Read(0, false)
    ensures GetString(key, m, tryFloat) == Read("", false)
    ensures GetBool(key, m) == Read(false, false)
    ensures GetMap(key, m) == Read(None, false)
  {
  }

  // ---------------------------------------------------------------------------
  // Compact records

  datatype CCharacter = CCharacter(flags: int, fullName: string, id: int)

  datatype CVehicle = CVehicle(driving: bool, id: int, model: string, name: string)

  datatype CPlayer = CPlayer(
    afk: int,
    character: Option<CCharacter>,
    movement: string,
    flags: int,
    invisibleSince: int,
    name: string,
    source: int,
    steam: string,
    vehicle: Option<CVehicle>)

  /** The three fields of an on-duty record that the compact form keeps. */
  datatype OnDutyPlayer = OnDutyPlayer(department: string, characterId: int, steamIdentifier: string)

  datatype CDutyPlayer = CDutyPlayer(department: string, characterId: int, steamIdentifier: string)

  /** The compact form of one player record; `movement` is what
      getMovementData made of the same record. */
  function CompressPlayer(p: Fields, movement: string): (c: CPlayer)
    ensures c.character.Some? <==> Lookup(p, "character").Obj?
    ensures c.vehicle.Some? <==> Lookup(p, "vehicle").Obj?
    ensures c.character.Some? ==>
              var ch := p["character"].fields;
              c.character.value == CCharacter(GetInt64("flags", ch, false).value,
                                              GetString("fullName", ch, false).value,
                                              GetInt64("id", ch, false).value)
    ensures c.vehicle.Some? ==>
              var v := p["vehicle"].fields;
              c.vehicle.value == CVehicle(GetBool("driving", v).value,
                                          GetInt64("id", v, false).value,
                                          GetString("model", v, true).value,
                                          GetString("name", v, false).value)
    ensures c.afk == GetInt64("afkSince", p, true).value
    ensures c.flags == GetInt64("flags", p, false).value
    ensures c.invisibleSince == GetInt64("invisible_since", p, false).value
    ensures c.name == GetString("name", p, false).value
    ensures c.source == GetInt64("source", p, false).value
    ensures c.movement == movement
    ensures c.steam == (if Lookup(p, "steamIdentifier").Str? then p["steamIdentifier"].s else "")
  {
    var character := GetMap("character", p).value;
    var ch := if character.Some? then
                var m := character.value;
                Some(CCharacter(GetInt64("flags", m, false).value,
                                GetString("fullName", m, false).value,
                                GetInt64("id", m, false).value))
              else None;
    var vehicle := GetMap("vehicle", p).value;
    var v := if vehicle.Some? then
               var m := vehicle.value;
               Some(CVehicle(GetBool("driving", m).value,
                             GetInt64("id", m, false).value,
                             GetString("model", m, true).value,
                             GetString("name", m, false).value))
             else None;
    CPlayer(GetInt64("afkSince", p, true).value, ch, movement,
            GetInt64("flags", p, false).value, GetInt64("invisible_since", p, false).value,
            GetString("name", p, false).value, GetInt64("source", p, false).value,
            GetString("steamIdentifier", p, false).value, v)
  }

  /** CompressPlayers: a slice of the input's length, element `i` built from
      `players[i]` alone. `movementOf` stands for getMovementData. */
  method CompressPlayers(players: seq<Fields>, movementOf: Fields -> string) returns (compressed: seq<CPlayer>)
    ensures |compressed| == |players|
    ensures forall i :: 0 <= i < |players| ==>
              compressed[i] == CompressPlayer(players[i], movementOf(players[i]))
  {
    var buffer := new CPlayer[|players|];
    for i := 0 to |players|
      invariant forall j :: 0 <= j < i ==> buffer[j] == CompressPlayer(players[j], movementOf(players[j]))
    {
      buffer[i] := CompressPlayer(players[i], movementOf(players[i]));
    }
    compressed := buffer[..];
  }

  /** CompressDutyPlayers: same length, and each element copies the department,
      character id and Steam identifier of the record at its index. */
  method CompressDutyPlayers(players: seq<OnDutyPlayer>) returns (compressed: seq<CDutyPlayer>)
    ensures |compressed| == |players|
    ensures forall i :: 0 <= i < |players| ==>
              && compressed[i].department == players[i].department
              && compressed[i].characterId == players[i].characterId
              && compressed[i].steamIdentifier == players[i].steamIdentifier
  {
    var buffer := new CDutyPlayer[|players|];
    for i := 0 to |players|
      invariant forall j :: 0 <= j < i ==>
                  buffer[j] == CDutyPlayer(players[j].department, players[j].characterId, players[j].steamIdentifier)
    {
      var p := players[i];
      buffer[i] := CDutyPlayer(p.department, p.characterId, p.steamIdentifier);
    }
    compressed := buffer[..];
  }
}
