/** The mock location search: hash a place name to grid coordinates, read the hotel file,
    and return the ten hotels nearest to those coordinates. */
module FindHotels {
  import opened Results
  import opened Text
  import opened Decimal
  import opened Hex
  import opened StableSort

  /** An md5 `hexdigest()`: 32 hexadecimal characters. */
  type Digest = s: string | |s| == 32 && AllHex(s) witness "00000000000000000000000000000000"

  datatype Coords = Coords(x: nat, y: nat)

  /** `hash_to_coords` after the digest: the first eight hex digits give `x`, the next
      eight give `y`, each reduced modulo 100. */
  function DigestToCoords(h: Digest): (c: Coords)
    ensures c.x < 100 && c.y < 100
  {
    Coords(HexValue(h[..8]) % 100, HexValue(h[8..16]) % 100)
  }

  /** `x` reads only hex digits 0-7 and `y` only digits 8-15. */
  lemma DigestCoordsLocal(h1: Digest, h2: Digest)
    ensures h1[..8] == h2[..8] ==> DigestToCoords(h1).x == DigestToCoords(h2).x
    ensures h1[8..16] == h2[8..16] ==> DigestToCoords(h1).y == DigestToCoords(h2).y
  {
  }

  /** A digest that spells the 32-bit numbers `a` and `b` in its first sixteen digits
      maps to `(a mod 100, b mod 100)`. */
  lemma {:induction false} DigestCoordsOfNumbers(a: nat, b: nat, rest: string, h: Digest)
    requires a < Pow16(8) && b < Pow16(8)
    requires h == ToHex(a, 8) + ToHex(b, 8) + rest
    ensures DigestToCoords(h) == Coords(a % 100, b % 100)
  {
    assert h[..8] == ToHex(a, 8);
    assert h[8..16] == ToHex(b, 8);
    HexRoundTrip(a, 8);
    HexRoundTrip(b, 8);
  }

  /** `hash_to_coords(location)`; `md5` stands for `hashlib.md5(...).hexdigest()` of the
      UTF-8 encoding. */
  function HashToCoords(location: string, md5: string -> Digest): (c: Coords)
    ensures c.x < 100 && c.y < 100
    ensures c == DigestToCoords(md5(location))
  {
    DigestToCoords(md5(location))
  }

  /** One record of `hotels.txt`. */
  datatype Hotel = Hotel(brand: string, name: string, x: real, y: real, price: int, rating: real)

  /** The exceptions `read_hotels` lets escape: the unpacking into six names, and the
      `float` / `int` conversions. */
  datatype ParseError =
    | NotEnoughValues(got: nat)
    | TooManyValues
    | NotAFloat(text: string)
    | NotAnInt(text: string)

  const FieldCount := 6

  /** The comma-separated fields of a stripped line. */
  function Fields(line: string): (fs: seq<string>)
    ensures |fs| >= 1
    ensures forall i :: 0 <= i < |fs| ==> ',' !in fs[i]
  {
    Split(Strip(line), ',')
  }

  function ParseFloatField(text: string): (r: Result<real, ParseError>)
  {
    match ParseFloat(text)
    case None => Failure(NotAFloat(text))
    case Some(v) => Success(v)
  }

  function ParseIntField(text: string): (r: Result<int, ParseError>)
  {
    match ParseInt(text)
    case None => Failure(NotAnInt(text))
    case Some(v) => Success(v)
  }

  /** One iteration of the loop in `read_hotels`: strip, split on commas, unpack into six
      fields, then convert `x`, `y`, `price` and `rating` in that order. */
  function ParseHotel(line: string): (r: Result<Hotel, ParseError>)
  {
    ParseRecord(Fields(line))
  }

  /** The unpacking and the conversions, applied to the fields of a line. */
  function ParseRecord(fs: seq<string>): (r: Result<Hotel, ParseError>)
  {
    if |fs| < FieldCount then Failure(NotEnoughValues(|fs|))
    else if |fs| > FieldCount then Failure(TooManyValues)
    else
      match ParseFloatField(fs[2])
      case Failure(e) => Failure(e)
      case Success(x) =>
        match ParseFloatField(fs[3])
        case Failure(e) => Failure(e)
        case Success(y) =>
          match ParseIntField(fs[4])
          case Failure(e) => Failure(e)
          case Success(price) =>
            match ParseFloatField(fs[5])
            case Failure(e) => Failure(e)
            case Success(rating) => Success(Hotel(fs[0], fs[1], x, y, price, rating))
  }

  /** Six fields whose numeric ones convert make the record with exactly those fields. */
  lemma RecordOfFields(fs: seq<string>, x: real, y: real, price: int, rating: real)
    requires |fs| == FieldCount
    requires ParseFloat(fs[2]).Some? && ParseFloat(fs[2]).value == x
    requires ParseFloat(fs[3]).Some? && ParseFloat(fs[3]).value == y
    requires ParseInt(fs[4]).Some? && ParseInt(fs[4]).value == price
    requires ParseFloat(fs[5]).Some? && ParseFloat(fs[5]).value == rating
    ensures ParseRecord(fs).Success? && ParseRecord(fs).value == Hotel(fs[0], fs[1], x, y, price, rating)
  {
  }

  /** Six fields whose numeric ones convert to `x`, `y`, `price` and `rating`. */
  predicate FieldsConvert(fs: seq<string>, x: real, y: real, price: int, rating: real) {
    && |fs| == FieldCount
    && ParseFloat(fs[2]).Some? && ParseFloat(fs[2]).value == x
    && ParseFloat(fs[3]).Some? && ParseFloat(fs[3]).value == y
    && ParseInt(fs[4]).Some? && ParseInt(fs[4]).value == price
    && ParseFloat(fs[5]).Some? && ParseFloat(fs[5]).value == rating
  }

  /** When a line is accepted, what it is read as, and which exception a rejected line
      raises: the unpacking is checked first, so a wrong field count wins over a bad number. */
  lemma ParseHotelSpec(line: string)
    ensures ParseHotel(line).Success? <==>
      var fs := Fields(line);
      && |fs| == FieldCount
      && ParseFloat(fs[2]).Some? && ParseFloat(fs[3]).Some?
      && ParseInt(fs[4]).Some? && ParseFloat(fs[5]).Some?
    ensures ParseHotel(line).Success? ==>
      var fs := Fields(line);
      var h := ParseHotel(line).value;
      && h.brand == fs[0] && h.name == fs[1]
      && ParseFloat(fs[2]).Some? && h.x == ParseFloat(fs[2]).value
      && ParseFloat(fs[3]).Some? && h.y == ParseFloat(fs[3]).value
      && ParseInt(fs[4]).Some? && h.price == ParseInt(fs[4]).value
      && ParseFloat(fs[5]).Some? && h.rating == ParseFloat(fs[5]).value
    ensures ParseHotel(line) == Failure(TooManyValues) <==> |Fields(line)| > FieldCount
    ensures ParseHotel(line) == Failure(NotEnoughValues(|Fields(line)|)) <==> |Fields(line)| < FieldCount
  {
  }

  /** A line whose stripped text joins six comma-free fields splits back into them, and when
      its numeric fields convert it is read as the record with exactly those fields. */
  lemma ParseSixFields(line: string, fs: seq<string>)
    requires |fs| == FieldCount && forall i :: 0 <= i < |fs| ==> ',' !in fs[i]
    requires Strip(line) == Join(fs, ',')
    ensures Fields(line) == fs
    ensures ParseFloat(fs[2]).Some? && ParseFloat(fs[3]).Some? && ParseInt(fs[4]).Some? && ParseFloat(fs[5]).Some? ==>
      ParseHotel(line).Success? &&
      ParseHotel(line).value == Hotel(fs[0], fs[1], ParseFloat(fs[2]).value, ParseFloat(fs[3]).value, ParseInt(fs[4]).value, ParseFloat(fs[5]).value)
  {
    SplitJoin(fs, ',');
  }

  /** Any other number of comma-separated fields makes the unpacking raise. */
  lemma WrongFieldCount(line: string, fs: seq<string>)
    requires |fs| >= 1 && forall i :: 0 <= i < |fs| ==> ',' !in fs[i]
    requires Strip(line) == Join(fs, ',')
    requires |fs| != FieldCount
    ensures ParseHotel(line) == if |fs| < FieldCount then Failure(NotEnoughValues(|fs|)) else Failure(TooManyValues)
  {
    SplitJoin(fs, ',');
  }

  /** A blank line (only whitespace) has one empty field and is rejected. */
  lemma BlankLineRejected(line: string)
    requires AllSpaces(line)
    ensures ParseHotel(line) == Failure(NotEnoughValues(1))
  {
    StripPadded(line, "", []);
    assert line + "" + [] == line;
    assert Split("", ',') == [""];
  }

  /** The loop of `read_hotels`: records in line order, the first bad line aborting it. */
  function ParseHotels(lines: seq<string>): (r: Result<seq<Hotel>, ParseError>)
    ensures r.Success? <==> forall i :: 0 <= i < |lines| ==> ParseHotel(lines[i]).Success?
    ensures r.Success? ==> |r.value| == |lines|
    ensures r.Success? ==> forall i :: 0 <= i < |lines| ==> ParseHotel(lines[i]).Success? && ParseHotel(lines[i]).value == r.value[i]
  {
    MapAll(lines, ParseHotel)
  }

  /** Lines that each read as the matching record read as the whole list. */
  lemma ParseHotelsAll(lines: seq<string>, hs: seq<Hotel>)
    requires |lines| == |hs|
    requires forall i :: 0 <= i < |lines| ==> ParseHotel(lines[i]).Success? && ParseHotel(lines[i]).value == hs[i]
    ensures ParseHotels(lines).Success? && ParseHotels(lines).value == hs
  {
  }

  /** The error reported is that of the first line that does not parse. */
  lemma ParseHotelsFirstError(lines: seq<string>) returns (i: nat)
    requires ParseHotels(lines).Failure?
    ensures i < |lines|
    ensures ParseHotel(lines[i]) == Failure(ParseHotels(lines).error)
    ensures forall j :: 0 <= j < i ==> ParseHotel(lines[j]).Success?
  {
    i := MapAllFirstError(lines, ParseHotel);
  }

  /** `read_hotels()` applied to the file's content. */
  function ReadHotels(content: string): (r: Result<seq<Hotel>, ParseError>)
  {
    ParseHotels(Lines(content))
  }

  /** A record with the distance the handler attaches to it. The key is the squared
      distance; `math.sqrt` is monotone, so it orders the hotels the same way. */
  datatype Found = Found(hotel: Hotel, sqDistance: real)

  datatype Reply = Reply(queryLocation: string, coords: Coords, results: seq<Found>)

  const DefaultLocation := "Beijing"
  const MaxResults := 10

  function SqDistanceTo(c: Coords, h: Hotel): (r: real)
  {
    (h.x - c.x as real) * (h.x - c.x as real) + (h.y - c.y as real) * (h.y - c.y as real)
  }

  /** The squared distance the handler sorts by is never negative. */
  lemma SqDistanceNonNeg(c: Coords, h: Hotel)
    ensures SqDistanceTo(c, h) >= 0.0
  {
    var a, b := h.x - c.x as real, h.y - c.y as real;
    assert a * a >= 0.0;
    assert b * b >= 0.0;
  }

  function Rank(f: Found): (r: real)
  {
    f.sqDistance
  }

  /** The loop that attaches a distance to every hotel, in file order. */
  function WithDistances(hotels: seq<Hotel>, c: Coords): (fs: seq<Found>)
    ensures |fs| == |hotels|
    ensures forall i :: 0 <= i < |fs| ==> fs[i] == Found(hotels[i], SqDistanceTo(c, hotels[i]))
  {
    seq(|hotels|, i requires 0 <= i < |hotels| => Found(hotels[i], SqDistanceTo(c, hotels[i])))
  }

  /** `sorted(hotels, key=distance)[:10]`: the ten nearest hotels, nearest first, each
      with its distance from `c`. */
  function Nearest(hotels: seq<Hotel>, c: Coords): (rs: seq<Found>)
    ensures |rs| == Min(MaxResults, |hotels|)
    ensures forall i, j :: 0 <= i < j < |rs| ==> rs[i].sqDistance <= rs[j].sqDistance
    ensures forall i :: 0 <= i < |rs| ==> rs[i].sqDistance == SqDistanceTo(c, rs[i].hotel)
    ensures forall i :: 0 <= i < |rs| ==> rs[i].hotel in hotels
  {
    var all := WithDistances(hotels, c);
    var top := SortedPrefix(all, Rank, MaxResults);
    SortedPrefixSpec(all, Rank, MaxResults);
    forall i | 0 <= i < |top| ensures top[i].sqDistance == SqDistanceTo(c, top[i].hotel) && top[i].hotel in hotels {
      assert top[i] in multiset(all);
      var j :| 0 <= j < |all| && all[j] == top[i];
      assert top[i].hotel == hotels[j];
    }
    top
  }

  /** The selection behind `sorted(...)[:10]`: no hotel left out is nearer than one returned,
      nothing is returned twice, and hotels at equal distance stay in file order. */
  lemma NearestSelects(hotels: seq<Hotel>, c: Coords)
    ensures var all := WithDistances(hotels, c);
            var rs := Nearest(hotels, c);
      && multiset(rs) <= multiset(all)
      && (forall f, i :: f in multiset(all) - multiset(rs) && 0 <= i < |rs| ==> rs[i].sqDistance <= f.sqDistance)
      && (forall d :: IsPrefix(WithKey(rs, Rank, d), WithKey(all, Rank, d)))
  {
    NearestIsTopTen(hotels, c);
    TopTenSelects(WithDistances(hotels, c), Nearest(hotels, c));
  }

  /** The selection facts for a top-ten selection from any list of hotels with distances. */
  lemma TopTenSelects(all: seq<Found>, rs: seq<Found>)
    requires rs == SortedPrefix(all, Rank, MaxResults)
    ensures multiset(rs) <= multiset(all)
    ensures forall f, i :: f in multiset(all) - multiset(rs) && 0 <= i < |rs| ==> rs[i].sqDistance <= f.sqDistance
    ensures forall d :: IsPrefix(WithKey(rs, Rank, d), WithKey(all, Rank, d))
  {
    SortedPrefixSpec(all, Rank, MaxResults);
    forall f, i | f in multiset(all) - multiset(rs) && 0 <= i < |rs| ensures rs[i].sqDistance <= f.sqDistance {
      assert Rank(rs[i]) <= Rank(f);
    }
  }

  /** The results are the top-ten selection from the hotels with their distances. */
  lemma NearestIsTopTen(hotels: seq<Hotel>, c: Coords)
    ensures Nearest(hotels, c) == SortedPrefix(WithDistances(hotels, c), Rank, MaxResults)
  {
  }

  /** The results are the first ten of ANY stable sort of the hotels by distance, in
      particular of Python's `sorted`. */
  lemma NearestIsFirstTenOfStableSort(hotels: seq<Hotel>, c: Coords, sorted: seq<Found>)
    requires IsStableSortOf(WithDistances(hotels, c), sorted, Rank)
    ensures Nearest(hotels, c) == Take(sorted, MaxResults)
  {
    StableSortsAgree(WithDistances(hotels, c), sorted, Rank);
  }

  /** `handler(event)`: `location` is the optional `event["location"]`, `content` the text
      of `hotels.txt`. Only reading the file can make it fail. */
  function Handle(location: Option<string>, md5: string -> Digest, content: string): (r: Result<Reply, ParseError>)
    ensures r.Failure? <==> ReadHotels(content).Failure?
    ensures r.Failure? ==> r.error == ReadHotels(content).error
    ensures r.Success? ==> r.value.queryLocation == location.ValueOr(DefaultLocation)
    ensures r.Success? ==> r.value.coords == HashToCoords(r.value.queryLocation, md5)
    ensures r.Success? ==> r.value.results == Nearest(ReadHotels(content).value, r.value.coords)
  {
    var loc := location.ValueOr(DefaultLocation);
    var c := HashToCoords(loc, md5);
    match ReadHotels(content)
    case Failure(e) => Failure(e)
    case Success(hotels) => Success(Reply(loc, c, Nearest(hotels, c)))
  }

  /** A request without `location` searches around the coordinates of `"Beijing"`. */
  lemma DefaultLocationUsed(md5: string -> Digest, content: string)
    ensures Handle(None, md5, content).Success? ==>
      Handle(None, md5, content).value.queryLocation == "Beijing" &&
      Handle(None, md5, content).value.coords == DigestToCoords(md5("Beijing"))
  {
  }
}
