/** `GprmcParser.Parse`: the RMC sentence of NMEA 0183 in its version 2.3
    layout (13 comma-separated fields once the mode indicator is counted),
    decoded into a `GpsPoint`. The checksum test runs before the `try`
    block, so its exceptions escape; every failure inside the `try` block
    yields no fix. */
module Gprmc {
  import opened Outcomes
  import Text
  import opened Numbers
  import Calendar
  import Checksum

  /** The `GpsPoint` class of GPS.cs:326-333, as a value (its setters and
      the sharing of one object are not modelled): degrees positive north
      and east. */
  datatype GpsPoint = GpsPoint(
    timestamp: Calendar.DateTime,
    latitude: real,
    longitude: real,
    speedInKnots: real,
    bearingInDegrees: real)

  /** `Parse` returns a point or null, or lets an exception escape. */
  datatype ParseResult = Throws | NoFix | Fix(point: GpsPoint)

  /** The structural checks, in the order of GPS.cs:28-71: 13 fields, status
      `A`, and fields of width 6 (date), 9 (time), 10 (latitude) and 11
      (longitude). */
  predicate Shaped(parts: seq<seq<char>>)
  {
    && |parts| == 13
    && parts[2] == "A"
    && |parts[9]| == 6
    && |parts[1]| == 9
    && |parts[3]| == 10
    && |parts[5]| == 11
  }

  /** `s` is the decimal digits of `v`. */
  predicate DigitsAre(s: seq<char>, v: int)
  {
    DigitsValue(s).Some? && DigitsValue(s).value == v
  }

  /** `magnitude`, negated when the hemisphere field says so. */
  function Hemisphere(negated: bool, magnitude: real): real
  {
    if negated then -magnitude else magnitude
  }

  /** `s` holds degrees in its first `width` characters and minutes in the
      rest, and `v` is their value in degrees, before the hemisphere. */
  predicate DegreesAre(s: seq<char>, width: nat, v: real)
    requires width <= |s|
  {
    && DecimalValue(s[..width]).Some?
    && DecimalValue(s[width..]).Some?
    && v == DecimalValue(s[..width]).value + DecimalValue(s[width..]).value / 60.0
  }

  /** What a shaped sentence says about a point: the date as DDMMYY in the
      2000s, the time as HHMMSS and two more digits read as milliseconds
      (the character between them is never looked at), degrees plus
      minutes over sixty for both coordinates, negated only for exactly
      `S` and `W`, and decimal speed and bearing. */
  predicate Describes(parts: seq<seq<char>>, p: GpsPoint)
    requires Shaped(parts)
  {
    var date, time, t := parts[9], parts[1], p.timestamp;
    && DigitsAre(date[4..6], t.year - 2000)
    && DigitsAre(date[2..4], t.month)
    && DigitsAre(date[0..2], t.day)
    && DigitsAre(time[0..2], t.hour)
    && DigitsAre(time[2..4], t.minute)
    && DigitsAre(time[4..6], t.second)
    && DigitsAre(time[7..9], t.millisecond)
    && Calendar.IsValid(t)
    && DegreesAre(parts[3], 2, Hemisphere(parts[4] == "S", p.latitude))
    && DegreesAre(parts[5], 3, Hemisphere(parts[6] == "W", p.longitude))
    && DecimalValue(parts[7]) == Some(p.speedInKnots)
    && DecimalValue(parts[8]) == Some(p.bearingInDegrees)
  }

  /** GPS.cs:43-45: year, month and day of a DDMMYY field. */
  function DateDigits(date: seq<char>): Option<(nat, nat, nat)>
    requires |date| == 6
  {
    var year, month, day := DigitsValue(date[4..6]), DigitsValue(date[2..4]), DigitsValue(date[0..2]);
    if year.None? || month.None? || day.None? then None
    else Some((year.value, month.value, day.value))
  }

  /** GPS.cs:51-54: hour, minute, second and milliseconds of an HHMMSS.ff
      field. */
  function TimeDigits(time: seq<char>): Option<(nat, nat, nat, nat)>
    requires |time| == 9
  {
    var hour, minute := DigitsValue(time[0..2]), DigitsValue(time[2..4]);
    var second, milliseconds := DigitsValue(time[4..6]), DigitsValue(time[7..9]);
    if hour.None? || minute.None? || second.None? || milliseconds.None? then None
    else Some((hour.value, minute.value, second.value, milliseconds.value))
  }

  /** GPS.cs:62-64 and GPS.cs:75-77: whole degrees in the first `width`
      characters plus minutes in the rest, divided by sixty. */
  function Degrees(s: seq<char>, width: nat): Option<real>
    requires width <= |s|
  {
    var hours, mins := DecimalValue(s[..width]), DecimalValue(s[width..]);
    if hours.None? || mins.None? then None
    else Some(hours.value + mins.value / 60.0)
  }

  lemma HemisphereInvolution(negated: bool, x: real)
    ensures Hemisphere(negated, Hemisphere(negated, x)) == x
  {
  }

  /** The `try` block of GPS.cs:26-96, on the comma-separated fields. A
      failed check, a failed number decode or an invalid calendar date is
      no fix; nothing in here escapes. `ParseFieldsSound` and
      `ParseFieldsComplete` say which points come out. */
  function ParseFields(parts: seq<seq<char>>): (r: ParseResult)
    ensures !r.Throws?
  {
    if |parts| != 13 || parts[2] != "A" || |parts[9]| != 6 then NoFix
    else match DateDigits(parts[9])
    case None => NoFix
    case Some((year, month, day)) =>
      if |parts[1]| != 9 then NoFix
      else match TimeDigits(parts[1])
      case None => NoFix
      case Some((hour, minute, second, milliseconds)) =>
        var utcTime := Calendar.DateTime(2000 + year, month, day, hour, minute, second, milliseconds);
        if !Calendar.IsValid(utcTime) || |parts[3]| != 10 then NoFix
        else match Degrees(parts[3], 2)
        case None => NoFix
        case Some(latitude) =>
          if |parts[5]| != 11 then NoFix
          else match Degrees(parts[5], 3)
          case None => NoFix
          case Some(longitude) =>
            match (DecimalValue(parts[7]), DecimalValue(parts[8]))
            case (Some(speed), Some(bearing)) =>
              Fix(GpsPoint(utcTime, Hemisphere(parts[4] == "S", latitude),
                           Hemisphere(parts[6] == "W", longitude), speed, bearing))
            case _ => NoFix
  }

  lemma DateDigitsSpec(date: seq<char>, y: nat, m: nat, d: nat)
    requires |date| == 6
    ensures DateDigits(date) == Some((y, m, d)) <==>
              DigitsAre(date[4..6], y) && DigitsAre(date[2..4], m) && DigitsAre(date[0..2], d)
  {
  }

  lemma TimeDigitsSpec(time: seq<char>, h: nat, m: nat, s: nat, ms: nat)
    requires |time| == 9
    ensures TimeDigits(time) == Some((h, m, s, ms)) <==>
              && DigitsAre(time[0..2], h) && DigitsAre(time[2..4], m)
              && DigitsAre(time[4..6], s) && DigitsAre(time[7..9], ms)
  {
  }

  lemma DegreesSpec(s: seq<char>, width: nat, v: real)
    requires width <= |s|
    ensures Degrees(s, width) == Some(v) <==> DegreesAre(s, width, v)
  {
  }

  /** The value in degrees of a coordinate written `DDMM.MMMM` (or
      `DDDMM.MMMMM`): whole degrees, plus decimal minutes at sixty to the
      degree. */
  function CoordinateOf(whole: seq<char>, mins: seq<char>, frac: seq<char>): real
    requires AllDigits(whole) && AllDigits(mins) && AllDigits(frac)
  {
    NatOf(whole) as real + PointValue(mins, frac) / 60.0
  }

  /** The two halves of such a coordinate decode separately. */
  lemma CoordinateHalves(whole: seq<char>, mins: seq<char>, frac: seq<char>)
    requires |whole| > 0 && AllDigits(whole)
    requires AllDigits(mins) && AllDigits(frac) && |mins| + |frac| > 0
    ensures var s := whole + (mins + ['.'] + frac);
            && DecimalValue(s[..|whole|]) == Some(NatOf(whole) as real)
            && DecimalValue(s[|whole|..]) == Some(PointValue(mins, frac))
  {
    var t := mins + ['.'] + frac;
    var s := whole + t;
    assert s[..|whole|] == whole;
    assert s[|whole|..] == t;
    DecimalOfInteger(whole);
    DecimalOfParts(mins, frac);
  }

  /** GPS.cs:57-64 and GPS.cs:70-77 read a coordinate field of the layout above,
      its degree digits first, as its value in degrees. */
  lemma CoordinateValue(whole: seq<char>, mins: seq<char>, frac: seq<char>)
    requires |whole| > 0 && AllDigits(whole)
    requires AllDigits(mins) && AllDigits(frac) && |mins| + |frac| > 0
    ensures Degrees(whole + (mins + ['.'] + frac), |whole|) == Some(CoordinateOf(whole, mins, frac))
  {
    CoordinateHalves(whole, mins, frac);
    DegreesSpec(whole + (mins + ['.'] + frac), |whole|, NatOf(whole) as real + PointValue(mins, frac) / 60.0);
  }

  /** Every point that comes out of the fields is described by them. */
  lemma ParseFieldsSound(parts: seq<seq<char>>)
    requires ParseFields(parts).Fix?
    ensures Shaped(parts) && Describes(parts, ParseFields(parts).point)
  {
    var p := ParseFields(parts).point;
    var t := p.timestamp;
    var (year, month, day) := DateDigits(parts[9]).value;
    DateDigitsSpec(parts[9], year, month, day);
    var (hour, minute, second, ms) := TimeDigits(parts[1]).value;
    TimeDigitsSpec(parts[1], hour, minute, second, ms);
    assert t == Calendar.DateTime(2000 + year, month, day, hour, minute, second, ms);
    var latitude, longitude := Degrees(parts[3], 2).value, Degrees(parts[5], 3).value;
    DegreesSpec(parts[3], 2, latitude);
    DegreesSpec(parts[5], 3, longitude);
    HemisphereInvolution(parts[4] == "S", latitude);
    HemisphereInvolution(parts[6] == "W", longitude);
  }

  /** Each field that describes a point decodes to that point's part. */
  lemma DescribedFieldsDecode(parts: seq<seq<char>>, p: GpsPoint)
    requires Shaped(parts) && Describes(parts, p)
    ensures var t := p.timestamp;
            && t.year >= 2000
            && DateDigits(parts[9]) == Some((t.year - 2000, t.month, t.day))
            && TimeDigits(parts[1]) == Some((t.hour, t.minute, t.second, t.millisecond))
            && Degrees(parts[3], 2) == Some(Hemisphere(parts[4] == "S", p.latitude))
            && Degrees(parts[5], 3) == Some(Hemisphere(parts[6] == "W", p.longitude))
  {
    var t := p.timestamp;
    DateDigitsSpec(parts[9], t.year - 2000, t.month, t.day);
    TimeDigitsSpec(parts[1], t.hour, t.minute, t.second, t.millisecond);
    DegreesSpec(parts[3], 2, Hemisphere(parts[4] == "S", p.latitude));
    DegreesSpec(parts[5], 3, Hemisphere(parts[6] == "W", p.longitude));
  }

  /** Fields whose decoders all succeed, on a valid date, yield the point
      assembled from the decoded values. */
  lemma DecodedFieldsYield(parts: seq<seq<char>>, t: Calendar.DateTime, latitude: real, longitude: real,
                           speed: real, bearing: real)
    requires Shaped(parts) && Calendar.IsValid(t) && t.year >= 2000
    requires DateDigits(parts[9]) == Some((t.year - 2000, t.month, t.day))
    requires TimeDigits(parts[1]) == Some((t.hour, t.minute, t.second, t.millisecond))
    requires Degrees(parts[3], 2) == Some(latitude) && Degrees(parts[5], 3) == Some(longitude)
    requires DecimalValue(parts[7]) == Some(speed) && DecimalValue(parts[8]) == Some(bearing)
    ensures ParseFields(parts)
         == Fix(GpsPoint(t, Hemisphere(parts[4] == "S", latitude), Hemisphere(parts[6] == "W", longitude),
                         speed, bearing))
  {
    var utcTime := Calendar.DateTime(2000 + (t.year - 2000), t.month, t.day, t.hour, t.minute, t.second, t.millisecond);
    assert utcTime == t;
  }

  /** Shaped fields that describe a point yield exactly that point. */
  lemma ParseFieldsComplete(parts: seq<seq<char>>, p: GpsPoint)
    requires Shaped(parts) && Describes(parts, p)
    ensures ParseFields(parts) == Fix(p)
  {
    var latitude := Hemisphere(parts[4] == "S", p.latitude);
    var longitude := Hemisphere(parts[6] == "W", p.longitude);
    DescribedFieldsDecode(parts, p);
    DecodedFieldsYield(parts, p.timestamp, latitude, longitude, p.speedInKnots, p.bearingInDegrees);
    HemisphereInvolution(parts[4] == "S", p.latitude);
    HemisphereInvolution(parts[6] == "W", p.longitude);
  }

  /** `GprmcParser.Parse`: the checksum test, whose exceptions escape,
      then the fields. */
  function Parse(line: seq<char>): (r: ParseResult)
    ensures r.Throws? <==> Checksum.IsCheckSumGood(line) == Checksum.Throws
    ensures r.Fix? ==> Checksum.IsCheckSumGood(line) == Checksum.Good
  {
    match Checksum.IsCheckSumGood(line)
    case Throws => Throws
    case Bad => NoFix
    case Good => ParseFields(Text.Split(line, ','))
  }

  /** The bounds a described point keeps: the 2000s, fewer than 100
      milliseconds, non-negative speed and bearing, and a sign that follows
      the hemisphere field. */
  lemma DescribedBounds(parts: seq<seq<char>>, p: GpsPoint)
    requires Shaped(parts) && Describes(parts, p)
    ensures 2000 <= p.timestamp.year <= 2099
    ensures 0 <= p.timestamp.millisecond < 100
    ensures p.speedInKnots >= 0.0 && p.bearingInDegrees >= 0.0
    ensures (p.latitude < 0.0 ==> parts[4] == "S") && (parts[4] == "S" ==> p.latitude <= 0.0)
    ensures (p.longitude < 0.0 ==> parts[6] == "W") && (parts[6] == "W" ==> p.longitude <= 0.0)
  {
    DigitsBound(parts[9][4..6]);
    DigitsBound(parts[1][7..9]);
  }

  /** What `Parse` accepts and what it makes of it: a point comes exactly
      from a sentence with a good checksum whose comma-separated fields are
      shaped and describe that point; and such a point lies in the 2000s,
      has fewer than 100 milliseconds, a non-negative speed and bearing,
      and is south or west only when the hemisphere field says so. */
  lemma ParseSpec(line: seq<char>)
    ensures forall p :: Parse(line) == Fix(p) <==>
              && Checksum.IsCheckSumGood(line) == Checksum.Good
              && Shaped(Text.Split(line, ','))
              && Describes(Text.Split(line, ','), p)
    ensures Parse(line).Fix? ==>
              var p, parts := Parse(line).point, Text.Split(line, ',');
              && 2000 <= p.timestamp.year <= 2099
              && 0 <= p.timestamp.millisecond < 100
              && p.speedInKnots >= 0.0 && p.bearingInDegrees >= 0.0
              && (p.latitude < 0.0 ==> parts[4] == "S")
              && (parts[4] == "S" ==> p.latitude <= 0.0)
              && (p.longitude < 0.0 ==> parts[6] == "W")
              && (parts[6] == "W" ==> p.longitude <= 0.0)
  {
    var parts := Text.Split(line, ',');
    if Parse(line).Fix? {
      ParseFieldsSound(parts);
      DescribedBounds(parts, Parse(line).point);
    }
    forall p | Checksum.IsCheckSumGood(line) == Checksum.Good && Shaped(parts) && Describes(parts, p)
      ensures Parse(line) == Fix(p)
    {
      ParseFieldsComplete(parts, p);
    }
  }

  /** The character between the seconds and the milliseconds digits of the
      time field has no effect on the result. */
  lemma TimeSeparatorIgnored(parts: seq<seq<char>>, c: char)
    requires |parts| == 13 && |parts[1]| == 9
    ensures ParseFields(parts[1 := parts[1][6 := c]]) == ParseFields(parts)
  {
    var parts' := parts[1 := parts[1][6 := c]];
    var r, r' := ParseFields(parts), ParseFields(parts');
    if r'.Fix? {
      ParseFieldsSound(parts');
      SeparatorUnread(parts, c, r'.point);
      ParseFieldsComplete(parts, r'.point);
    } else if r.Fix? {
      ParseFieldsSound(parts);
      SeparatorUnread(parts, c, r.point);
      ParseFieldsComplete(parts', r.point);
    }
  }

  /** The shape and the description do not read the time separator. */
  lemma SeparatorUnread(parts: seq<seq<char>>, c: char, p: GpsPoint)
    requires |parts| == 13 && |parts[1]| == 9
    ensures var parts' := parts[1 := parts[1][6 := c]];
            && (Shaped(parts') <==> Shaped(parts))
            && (Shaped(parts) ==> (Describes(parts', p) <==> Describes(parts, p)))
  {
    var parts' := parts[1 := parts[1][6 := c]];
    var t, t' := parts[1], parts'[1];
    assert t'[0..2] == t[0..2] && t'[2..4] == t[2..4] && t'[4..6] == t[4..6] && t'[7..9] == t[7..9];
  }
}
