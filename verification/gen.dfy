/** `generate_hotels`: the lines of `hotels.txt`, built from random draws that are taken
    here as inputs. */
module GenHotels {
  import opened Results
  import opened Text
  import opened Decimal
  import opened StableSort
  import opened FindHotels

  const Brands: seq<string> := ["品牌1", "品牌2", "品牌3", "品牌4", "品牌5", "品牌6", "品牌7"]
  const Cities: seq<string> := ["地点01", "地点02", "地点03", "地点04", "地点05",
                                "地点06", "地点07", "地点08", "地点09", "地点10"]

  /** `random.choice(brands)` and `random.choice(cities)`, as positions in the lists. */
  type BrandIndex = i: nat | i < 7
  type CityIndex = i: nat | i < 10

  /** `random.uniform(0, 100)` after the `.2f` rounding, in hundredths. */
  type Hundredths = c: nat | c <= 10000

  /** `random.randint(200, 1500)`: both ends included. */
  type Price = p: int | 200 <= p <= 1500 witness 200

  /** `round(random.uniform(3.0, 5.0), 1)`, in tenths. */
  type Tenths = t: nat | 30 <= t <= 50 witness 30

  /** The draws of one loop iteration. */
  datatype Draw = Draw(brand: BrandIndex, city: CityIndex, x: Hundredths, y: Hundredths, price: Price, rating: Tenths)

  /** The name of the hotel on line `i` (counted from zero). */
  function HotelName(i: nat, d: Draw): (r: string)
  {
    Brands[d.brand] + " " + Cities[d.city] + " Hotel #" + NatToString(i + 1)
  }

  /** The six fields written for a hotel called `name`, before joining with commas. */
  function LineFields(name: string, d: Draw): (fs: seq<string>)
    ensures |fs| == FieldCount
  {
    [Brands[d.brand], name, FormatCents(d.x), FormatCents(d.y), IntToString(d.price), FormatTenths(d.rating)]
  }

  /** The line written for a hotel called `name`: its six fields joined by commas, then a
      newline. */
  function Line(name: string, d: Draw): (r: string)
  {
    Join(LineFields(name, d), ',') + "\n"
  }

  /** The line written on iteration `i`. */
  function HotelLine(i: nat, d: Draw): (r: string)
  {
    Line(HotelName(i, d), d)
  }

  /** The lines written for `generate_hotels(n)`, where `draw(i)` is what iteration `i`
      draws: one per `i` in `range(n)`, so none when `n <= 0`. */
  function GenerateLines(n: int, draw: nat -> Draw): (lines: seq<string>)
    ensures |lines| == Max(n, 0)
    ensures forall i :: 0 <= i < |lines| ==> lines[i] == HotelLine(i, draw(i))
  {
    seq(Max(n, 0), (i: nat) => HotelLine(i, draw(i)))
  }

  /** The record `read_hotels` is meant to get back for a line written for `name`. */
  function RecordOf(name: string, d: Draw): (r: Hotel)
  {
    Hotel(Brands[d.brand], name, d.x as real / 100.0, d.y as real / 100.0, d.price, d.rating as real / 10.0)
  }

  /** The record meant to be read back from line `i`. */
  function Generated(i: nat, d: Draw): (r: Hotel)
  {
    RecordOf(HotelName(i, d), d)
  }

  /** No list entry is empty or starts with whitespace, and none holds a comma, a newline
      or a `#`. */
  lemma ListsClean()
    ensures forall j :: 0 <= j < |Brands| ==>
      |Brands[j]| > 0 && !IsSpace(Brands[j][0]) && ',' !in Brands[j] && '\n' !in Brands[j] && '#' !in Brands[j]
    ensures forall j :: 0 <= j < |Cities| ==>
      ',' !in Cities[j] && '\n' !in Cities[j] && '#' !in Cities[j]
  {
  }

  lemma DigitsClean(s: string)
    requires AllDigits(s)
    ensures ',' !in s && '\n' !in s && '#' !in s
  {
  }

  /** A field that survives the comma split and the line split intact. */
  predicate CleanField(s: string) {
    |s| > 0 && ',' !in s && '\n' !in s
  }

  predicate AllClean(fs: seq<string>) {
    forall j :: 0 <= j < |fs| ==> CleanField(fs[j])
  }

  /** The name of line `i` is non-empty and free of commas and newlines. */
  lemma NameClean(i: nat, d: Draw)
    ensures CleanField(HotelName(i, d))
  {
    ListsClean();
    DigitsClean(NatToString(i + 1));
  }

  /** With a clean name, every field is clean, and the joined fields have no whitespace at
      either end. */
  lemma LineFieldsShape(name: string, d: Draw)
    requires CleanField(name)
    ensures var fs := LineFields(name, d);
      && AllClean(fs)
      && |fs| == FieldCount && |fs[0]| > 0 && |fs[5]| > 0
      && !IsSpace(fs[0][0]) && !IsSpace(fs[5][|fs[5]| - 1])
  {
    var fs := LineFields(name, d);
    ListsClean();
    DigitsClean(NatToString(d.price));
    assert CleanField(fs[0]) && CleanField(fs[1]) && CleanField(fs[2]);
    assert CleanField(fs[3]) && CleanField(fs[4]) && CleanField(fs[5]);
  }

  /** A line with a clean name ends with its only newline. */
  lemma {:induction false} LineShape(name: string, d: Draw)
    requires CleanField(name)
    ensures var l := Line(name, d);
      |l| > 0 && l[|l| - 1] == '\n' && '\n' !in l[..|l| - 1]
  {
    var fs := LineFields(name, d);
    LineFieldsShape(name, d);
    JoinAvoids(fs, ',', '\n');
    var l := Line(name, d);
    assert l[..|l| - 1] == Join(fs, ',');
  }

  /** Each generated line is one line of the file: it ends with its only newline. */
  lemma HotelLineShape(i: nat, d: Draw)
    ensures var l := HotelLine(i, d);
      |l| > 0 && l[|l| - 1] == '\n' && '\n' !in l[..|l| - 1]
  {
    NameClean(i, d);
    LineShape(HotelName(i, d), d);
  }

  /** Stripping a newline-terminated join of clean fields leaves the join. */
  lemma TerminatedStrip(line: string, fs: seq<string>)
    requires |fs| == FieldCount
    requires |fs[0]| > 0 && |fs[5]| > 0 && !IsSpace(fs[0][0]) && !IsSpace(fs[5][|fs[5]| - 1])
    requires forall j :: 0 <= j < |fs| ==> |fs[j]| > 0
    requires line == Join(fs, ',') + "\n"
    ensures Strip(line) == Join(fs, ',')
  {
    var body := Join(fs, ',');
    JoinEnds(fs, ',');
    StripPadded("", body, "\n");
    assert "" + body + "\n" == line;
  }

  /** The rendered `x` reads back as the drawn hundredths. */
  lemma LineXReads(name: string, d: Draw)
    ensures var f := LineFields(name, d)[2]; ParseFloat(f).Some? && ParseFloat(f).value == d.x as real / 100.0
  {
    CentsRoundTrip(d.x);
  }

  /** The rendered `y` reads back as the drawn hundredths. */
  lemma LineYReads(name: string, d: Draw)
    ensures var f := LineFields(name, d)[3]; ParseFloat(f).Some? && ParseFloat(f).value == d.y as real / 100.0
  {
    CentsRoundTrip(d.y);
  }

  /** The rendered price reads back as the drawn price. */
  lemma LinePriceReads(name: string, d: Draw)
    ensures var f := LineFields(name, d)[4]; ParseInt(f).Some? && ParseInt(f).value == d.price as int
  {
    IntRoundTrip(d.price);
  }

  /** The rendered rating reads back as the drawn tenths. */
  lemma LineRatingReads(name: string, d: Draw)
    ensures var f := LineFields(name, d)[5]; ParseFloat(f).Some? && ParseFloat(f).value == d.rating as real / 10.0
  {
    TenthsRoundTrip(d.rating);
  }

  /** The four numeric fields convert back to the drawn numbers. */
  lemma LineFieldsConvert(name: string, d: Draw)
    ensures FieldsConvert(LineFields(name, d), d.x as real / 100.0, d.y as real / 100.0, d.price, d.rating as real / 10.0)
  {
    LineXReads(name, d);
    LineYReads(name, d);
    LinePriceReads(name, d);
    LineRatingReads(name, d);
  }

  /** The drawn record holds the first two fields verbatim and the numbers in their units. */
  lemma RecordFromFields(name: string, d: Draw)
    ensures var fs := LineFields(name, d);
      RecordOf(name, d) == Hotel(fs[0], fs[1], d.x as real / 100.0, d.y as real / 100.0, d.price, d.rating as real / 10.0)
  {
  }

  /** Stripping and splitting a line with a clean name gives back its six fields. */
  lemma LineSplits(name: string, d: Draw)
    requires CleanField(name)
    ensures Fields(Line(name, d)) == LineFields(name, d)
  {
    LineFieldsShape(name, d);
    TerminatedStrip(Line(name, d), LineFields(name, d));
    SplitJoin(LineFields(name, d), ',');
  }

  /** Unpacking and converting the six fields gives the drawn record. */
  lemma {:induction false} LineFieldsRecord(name: string, d: Draw)
    ensures ParseRecord(LineFields(name, d)).Success? && ParseRecord(LineFields(name, d)).value == RecordOf(name, d)
  {
    LineFieldsConvert(name, d);
    RecordFromFields(name, d);
    RecordOfFields(LineFields(name, d), d.x as real / 100.0, d.y as real / 100.0, d.price, d.rating as real / 10.0);
  }

  /** A line written for a clean name reads back as its record. */
  lemma {:induction false} LineRoundTrip(name: string, d: Draw)
    requires CleanField(name)
    ensures ParseHotel(Line(name, d)).Success? && ParseHotel(Line(name, d)).value == RecordOf(name, d)
  {
    LineSplits(name, d);
    LineFieldsRecord(name, d);
  }

  /** Reading back one generated line gives exactly the drawn record: the brand and name
      verbatim, the coordinates to the hundredth, the price, the rating to the tenth. */
  lemma {:induction false} HotelLineRoundTrip(i: nat, d: Draw)
    ensures ParseHotel(HotelLine(i, d)).Success? && ParseHotel(HotelLine(i, d)).value == Generated(i, d)
  {
    NameClean(i, d);
    LineRoundTrip(HotelName(i, d), d);
  }

  /** Each generated line is one line of the file. */
  lemma GeneratedLinesShape(n: int, draw: nat -> Draw)
    ensures var lines := GenerateLines(n, draw);
      forall i :: 0 <= i < |lines| ==> |lines[i]| > 0 && lines[i][|lines[i]| - 1] == '\n' && '\n' !in lines[i][..|lines[i]| - 1]
  {
    var lines := GenerateLines(n, draw);
    forall i | 0 <= i < |lines|
      ensures |lines[i]| > 0 && lines[i][|lines[i]| - 1] == '\n' && '\n' !in lines[i][..|lines[i]| - 1]
    {
      HotelLineShape(i, draw(i));
    }
  }

  /** Each generated line reads back as its drawn record. */
  lemma GeneratedLinesRead(n: int, draw: nat -> Draw, hs: seq<Hotel>)
    requires hs == seq(Max(n, 0), (i: nat) => Generated(i, draw(i)))
    ensures var lines := GenerateLines(n, draw);
      |hs| == |lines| && forall i :: 0 <= i < |lines| ==> ParseHotel(lines[i]).Success? && ParseHotel(lines[i]).value == hs[i]
  {
    var lines := GenerateLines(n, draw);
    forall i | 0 <= i < |lines| ensures ParseHotel(lines[i]).Success? && ParseHotel(lines[i]).value == hs[i] {
      HotelLineRoundTrip(i, draw(i));
    }
  }

  /** `read_hotels` of the file `generate_hotels(n)` writes gives back the `n` drawn
      records, in order. */
  lemma {:induction false} GenerateReadRoundTrip(n: int, draw: nat -> Draw)
    ensures var r := ReadHotels(Concat(GenerateLines(n, draw)));
      r.Success? && r.value == seq(Max(n, 0), (i: nat) => Generated(i, draw(i)))
  {
    var lines := GenerateLines(n, draw);
    var hs := seq(Max(n, 0), (i: nat) => Generated(i, draw(i)));
    GeneratedLinesShape(n, draw);
    LinesConcat(lines);
    GeneratedLinesRead(n, draw, hs);
    ParseHotelsAll(lines, hs);
  }

  /** The name of line `i` ends in `#` and the decimal digits of `i + 1`, the only `#` in it. */
  lemma {:induction false} HotelNameNumber(i: nat, d: Draw)
    ensures var parts := Split(HotelName(i, d), '#');
      |parts| == 2 && ParseInt(parts[1]) == Some(i + 1)
  {
    ListsClean();
    var pre := Brands[d.brand] + " " + Cities[d.city] + " Hotel ";
    var num := NatToString(i + 1);
    DigitsClean(num);
    assert HotelName(i, d) == Join([pre, num], '#');
    SplitJoin([pre, num], '#');
    IntRoundTrip(i + 1);
  }

  /** Different lines never carry the same name, whatever was drawn for them. */
  lemma HotelNamesDistinct(i: nat, j: nat, d: Draw, e: Draw)
    requires i != j
    ensures HotelName(i, d) != HotelName(j, e)
  {
    HotelNameNumber(i, d);
    HotelNameNumber(j, e);
  }
}
