/** The profiling script: reading the restore latency out of the plotting log, and the
    sweep over one to five vCPUs that turns each latency into a cost record. */
module Profile {
  import opened Results
  import opened Text
  import opened Decimal

  /** One match of the pattern `x:\s*\[([^\]]+)\]`: it starts at `start` with `x:`, the
      bracket opens at `open` and closes at `close`; group 1 lies strictly between. */
  datatype Match = Match(start: nat, open: nat, close: nat)

  /** The pattern matches at `p` with its bracket at `q` and its closing bracket at `r`.
      Whitespace is ASCII whitespace, and `[^\]]` takes any other character, newlines included. */
  predicate MatchesAt(s: string, p: nat, q: nat, r: nat) {
    && p + 2 <= q && q + 1 < r < |s|
    && s[p] == 'x' && s[p + 1] == ':'
    && AllSpaces(s[p + 2..q]) && s[q] == '['
    && s[r] == ']' && ']' !in s[q + 1..r]
  }

  /** The end of the run of whitespace starting at `i`. */
  function SkipSpaces(s: string, i: nat): (j: nat)
    requires i <= |s|
    ensures i <= j <= |s|
    ensures AllSpaces(s[i..j])
    ensures j < |s| ==> !IsSpace(s[j])
    decreases |s| - i
  {
    if i < |s| && IsSpace(s[i]) then
      var j := SkipSpaces(s, i + 1);
      assert s[i..j] == [s[i]] + s[i + 1..j];
      j
    else i
  }

  /** Whitespace followed by a non-space character ends exactly there. */
  lemma {:induction false} SkipSpacesTo(s: string, i: nat, q: nat)
    requires i <= q < |s| && AllSpaces(s[i..q]) && !IsSpace(s[q])
    ensures SkipSpaces(s, i) == q
    decreases q - i
  {
    if i < q {
      assert IsSpace(s[i..q][0]);
      var t, u := s[i + 1..q], s[i..q];
      forall k | 0 <= k < |t| ensures IsSpace(t[k]) {
        assert t[k] == u[k + 1];
      }
      SkipSpacesTo(s, i + 1, q);
    }
  }

  /** Matching the pattern anchored at `p`. Greedy `\s*` can only stop before the bracket and
      greedy `[^\]]+` only before the first `]`, so backtracking never finds another way and
      the match, when there is one, is the only one. */
  function MatchAt(s: string, p: nat): (m: Option<Match>)
    ensures m.Some? ==> m.value.start == p && MatchesAt(s, p, m.value.open, m.value.close)
    ensures forall q, r :: MatchesAt(s, p, q, r) ==> m == Some(Match(p, q, r))
  {
    if p + 2 <= |s| && s[p] == 'x' && s[p + 1] == ':' then
      var q := SkipSpaces(s, p + 2);
      if q < |s| && s[q] == '[' then
        match IndexOf(s[q + 1..], ']')
        case None =>
          assert forall r :: q + 1 < r < |s| && s[r] == ']' ==> s[q + 1..][r - q - 1] == ']';
          None
        case Some(j) =>
          if j > 0 then
            var r := q + 1 + j;
            assert s[q + 1..r] == s[q + 1..][..j];
            AnchoredUnique(s, p, q, r);
            Some(Match(p, q, r))
          else
            assert forall q', r' :: MatchesAt(s, p, q', r') ==> q' == q && s[q + 1..][0] == s[q + 1];
            None
      else
        assert forall q', r' :: MatchesAt(s, p, q', r') ==> q' == q by {
          forall q': nat, r': nat | MatchesAt(s, p, q', r') ensures q' == q {
            SkipSpacesTo(s, p + 2, q');
          }
        }
        None
    else None
  }

  /** Given its start, a match has only one bracket position and one closing bracket. */
  lemma AnchoredUnique(s: string, p: nat, q: nat, r: nat)
    requires MatchesAt(s, p, q, r)
    ensures forall q', r' :: MatchesAt(s, p, q', r') ==> q' == q && r' == r
  {
    forall q': nat, r': nat | MatchesAt(s, p, q', r') ensures q' == q && r' == r {
      SkipSpacesTo(s, p + 2, q');
      SkipSpacesTo(s, p + 2, q);
    }
  }

  /** `re.search` from position `p` on: the leftmost position where the pattern matches. */
  function Leftmost(s: string, p: nat): (m: Option<Match>)
    requires p <= |s|
    ensures m.Some? ==> p <= m.value.start && MatchesAt(s, m.value.start, m.value.open, m.value.close)
    ensures m.Some? ==> forall p', q, r :: p <= p' < m.value.start ==> !MatchesAt(s, p', q, r)
    ensures m.None? ==> forall p', q, r :: p <= p' ==> !MatchesAt(s, p', q, r)
    decreases |s| - p
  {
    match MatchAt(s, p)
    case Some(x) => Some(x)
    case None => if p == |s| then None else Leftmost(s, p + 1)
  }

  /** Group 1 of `re.search(pattern, content)`, or `None` when nothing matches. */
  function Capture(content: string): (g: Option<string>)
    ensures g.Some? ==> |g.value| > 0 && ']' !in g.value
    ensures g.None? <==> forall p, q, r :: !MatchesAt(content, p, q, r)
  {
    match Leftmost(content, 0)
    case None => None
    case Some(m) => Some(content[m.open + 1..m.close])
  }

  /** A match that starts at `p`, when no match starts earlier, is the one `re.search` finds.
      With the `None` case of `Capture` this fixes the capture of every content. */
  lemma {:induction false} CaptureAt(content: string, p: nat, q: nat, r: nat)
    requires MatchesAt(content, p, q, r)
    requires forall p': nat, q': nat, r': nat :: p' < p ==> !MatchesAt(content, p', q', r')
    ensures Capture(content) == Some(content[q + 1..r])
  {
    var m := Leftmost(content, 0);
    assert m.Some?;
    assert m.value.start == p;
    AnchoredUnique(content, p, q, r);
  }

  /** `int(x.strip())` of one comma-separated piece; a piece that is not an integer literal
      raises, and the raised piece is kept for the record. `int` strips its argument itself,
      so the explicit strip is folded into it (see `StripBeforeInt`). */
  function ParseXValue(piece: string): (r: Result<int, string>) {
    match ParseInt(piece)
    case Some(v) => Success(v)
    case None => Failure(piece)
  }

  /** Stripping a piece before `int` changes nothing. */
  lemma StripBeforeInt(piece: string)
    ensures ParseInt(Strip(piece)) == ParseInt(piece)
  {
    StripClean(Strip(piece));
    SameStripSameInt(Strip(piece), piece);
  }

  /** The list comprehension over `x_values_str.split(',')`. */
  function XValues(g: string): (r: Result<seq<int>, string>) {
    MapAll(Split(g, ','), ParseXValue)
  }

  /** The last element of a list converted piece by piece, `None` when a conversion fails. */
  function LastConverted<E>(pieces: seq<string>, f: string -> Result<int, E>): (r: Option<int>)
    ensures r.Some? <==> |pieces| > 0 && forall i :: 0 <= i < |pieces| ==> f(pieces[i]).Success?
    ensures r.Some? ==> f(pieces[|pieces| - 1]).Success? && r.value == f(pieces[|pieces| - 1]).value
  {
    match MapAll(pieces, f)
    case Failure(_) => None
    case Success(xs) =>
      if |xs| > 0 then Some(xs[|xs| - 1]) else None
  }

  /** The last of a list of integer literals, `None` when one of them is not one. */
  function LastInt(pieces: seq<string>): (r: Option<int>)
    ensures r.Some? <==> |pieces| > 0 && forall i :: 0 <= i < |pieces| ==> ParseInt(pieces[i]).Some?
    ensures r.Some? ==> ParseInt(pieces[|pieces| - 1]).Some? && r.value == ParseInt(pieces[|pieces| - 1]).value
  {
    var r := LastConverted(pieces, ParseXValue);
    assert r.Some? <==> |pieces| > 0 && forall i :: 0 <= i < |pieces| ==> ParseXValue(pieces[i]).Success?;
    assert (forall i :: 0 <= i < |pieces| ==> ParseXValue(pieces[i]).Success?)
       <==> (forall i :: 0 <= i < |pieces| ==> ParseInt(pieces[i]).Some?) by {
      forall i | 0 <= i < |pieces| ensures ParseXValue(pieces[i]).Success? <==> ParseInt(pieces[i]).Some? {
      }
    }
    r
  }

  /** `run_command` after the log is read: the last value of the first `x: [...]` list,
      `None` when there is no such list or when one of its pieces is not an integer. */
  function LatencyFromLog(content: string): (r: Option<int>)
    ensures Capture(content).None? ==> r.None?
  {
    match Capture(content)
    case None => None
    case Some(g) => LastInt(Split(g, ','))
  }

  /** The branch for an empty value list is dead: a match's capture is never empty, and
      splitting any string gives at least one piece. */
  lemma ValueListNeverEmpty(g: string)
    requires XValues(g).Success?
    ensures |XValues(g).value| >= 1
  {
  }

  /** A list with a trailing comma, such as `x: [1,2,]`, ends in an empty piece, which is
      not an integer, so the log yields nothing. */
  lemma TrailingCommaRejected(content: string, g: string)
    requires Capture(content) == Some(g + ",")
    ensures LatencyFromLog(content) == None
  {
    SplitTrailing(g, ',');
    var pieces := Split(g + ",", ',');
    assert pieces[|pieces| - 1] == "";
    assert Strip("") == "";
  }

  /** The pieces of a printed list `[v0, v1, ...]` cut at its commas: each value after the
      first keeps the space that follows the comma. */
  function Piece(values: seq<int>, i: nat): (r: string)
    requires i < |values|
  {
    (if i == 0 then "" else " ") + IntToString(values[i])
  }

  function Pieces(values: seq<int>): (ps: seq<string>)
    ensures |ps| == |values|
    ensures forall i :: 0 <= i < |ps| ==> ps[i] == Piece(values, i)
  {
    seq(|values|, i requires 0 <= i < |values| => Piece(values, i))
  }

  /** `str(v)` is a minus sign or a digit followed by digits, and ends in a digit. */
  lemma IntToStringChars(v: int)
    ensures var t := IntToString(v);
      && (forall k :: 0 <= k < |t| ==> t[k] == '-' || IsDigit(t[k]))
      && IsDigit(t[|t| - 1])
  {
    if v < 0 {
      var d := NatToString(-v);
      assert forall k :: 1 <= k < |IntToString(v)| ==> IntToString(v)[k] == d[k - 1];
      assert IntToString(v)[|IntToString(v)| - 1] == d[|d| - 1];
    }
  }

  /** `int` only looks at the stripped text. */
  lemma SameStripSameInt(x: string, y: string)
    requires Strip(x) == Strip(y)
    ensures ParseInt(x) == ParseInt(y)
  {
  }

  /** Spaces in front of a clean text do not change what `int` reads. */
  lemma PaddedParse(pad: string, t: string)
    requires AllSpaces(pad) && |t| > 0 && !IsSpace(t[0]) && !IsSpace(t[|t| - 1])
    ensures ParseInt(pad + t) == ParseInt(t)
  {
    StripPadded(pad, t, "");
    assert pad + t + "" == pad + t;
    StripClean(t);
    SameStripSameInt(pad + t, t);
  }

  /** `int` reads `str(v)` with spaces in front as `v`. */
  lemma PaddedIntParses(pad: string, v: int)
    requires AllSpaces(pad)
    ensures ParseInt(pad + IntToString(v)).Some? && ParseInt(pad + IntToString(v)).value == v
  {
    var t := IntToString(v);
    IntToStringChars(v);
    assert t[0] == '-' || IsDigit(t[0]);
    PaddedParse(pad, t);
    IntRoundTrip(v);
  }

  /** A piece holds only spaces, minus signs and digits. */
  lemma PaddedIntChars(pad: string, v: int, c: char)
    requires AllSpaces(pad) && c != '-' && !IsSpace(c) && !IsDigit(c)
    ensures c !in pad + IntToString(v)
  {
    IntToStringChars(v);
    var s := pad + IntToString(v);
    forall k | 0 <= k < |s| ensures s[k] != c {
      if k >= |pad| {
        assert s[k] == IntToString(v)[k - |pad|];
      }
    }
  }

  /** Each printed piece reads back as its value, and holds no comma, bracket or `x`. */
  lemma PieceParses(values: seq<int>, i: nat)
    requires i < |values|
    ensures ParseInt(Piece(values, i)).Some? && ParseInt(Piece(values, i)).value == values[i]
    ensures ',' !in Piece(values, i) && ']' !in Piece(values, i) && 'x' !in Piece(values, i)
  {
    var pad := if i == 0 then "" else " ";
    assert AllSpaces(pad);
    PaddedIntParses(pad, values[i]);
    PaddedIntChars(pad, values[i], ',');
    PaddedIntChars(pad, values[i], ']');
    PaddedIntChars(pad, values[i], 'x');
  }

  /** The inside of `str(values)`: the printed values joined by `", "`. */
  function Render(values: seq<int>): (r: string) {
    Join(Pieces(values), ',')
  }

  /** The printed list splits back into its pieces and holds no `]` or `x`. */
  lemma RenderShape(values: seq<int>)
    requires |values| >= 1
    ensures Split(Render(values), ',') == Pieces(values)
    ensures ']' !in Render(values) && 'x' !in Render(values) && |Render(values)| > 0
  {
    var ps := Pieces(values);
    forall i | 0 <= i < |ps| ensures ',' !in ps[i] && ']' !in ps[i] && 'x' !in ps[i] {
      PieceParses(values, i);
    }
    SplitJoin(ps, ',');
    JoinAvoids(ps, ',', ']');
    JoinAvoids(ps, ',', 'x');
    assert |Render(values)| > 0 by {
      assert |ps[0]| >= 1;
      if |ps| > 1 {
        assert Render(values) == ps[0] + [','] + Join(ps[1..], ',');
      }
    }
  }

  /** The printed pieces report the last value printed. */
  lemma LastPrinted(values: seq<int>)
    requires |values| >= 1
    ensures LastInt(Pieces(values)).Some? && LastInt(Pieces(values)).value == values[|values| - 1]
  {
    var ps := Pieces(values);
    forall i | 0 <= i < |ps| ensures ParseInt(ps[i]).Some? && ParseInt(ps[i]).value == values[i] {
      PieceParses(values, i);
    }
    LastOfParsed(ps, values);
  }

  /** Pieces that read as the given values report the last of them. */
  lemma LastOfParsed(ps: seq<string>, values: seq<int>)
    requires |ps| == |values| >= 1
    requires forall i :: 0 <= i < |ps| ==> ParseInt(ps[i]).Some? && ParseInt(ps[i]).value == values[i]
    ensures LastInt(ps).Some? && LastInt(ps).value == values[|values| - 1]
  {
    assert ParseInt(ps[|ps| - 1]).value == values[|values| - 1];
  }

  /** In a log where no match starts before `x: [`, `re.search` captures everything up to
      the next `]`. */
  lemma {:induction false} CaptureOfList(pre: string, body: string, post: string, content: string)
    requires content == pre + "x: [" + body + "]" + post
    requires forall p': nat, q': nat, r': nat :: p' < |pre| ==> !MatchesAt(content, p', q', r')
    requires ']' !in body && |body| > 0
    ensures Capture(content).Some? && Capture(content).value == body
  {
    var p := |pre|;
    var q := p + 3;
    var r := q + 1 + |body|;
    assert content[p..p + 4] == "x: [";
    assert content[q + 1..r] == body;
    assert content[r] == ']';
    assert content[p + 2..q] == " ";
    assert MatchesAt(content, p, q, r);
    CaptureAt(content, p, q, r);
  }

  /** A log that prints `x: [v0, v1, ..., vn]`, with no match of the pattern starting in the
      text before it, reports the last value printed, whatever follows. */
  lemma LoggedListRoundTrip(pre: string, values: seq<int>, post: string)
    requires |values| >= 1
    requires forall p': nat, q': nat, r': nat :: p' < |pre| ==>
      !MatchesAt(pre + "x: [" + Render(values) + "]" + post, p', q', r')
    ensures var r := LatencyFromLog(pre + "x: [" + Render(values) + "]" + post);
      r.Some? && r.value == values[|values| - 1]
  {
    RenderShape(values);
    CaptureOfList(pre, Render(values), post, pre + "x: [" + Render(values) + "]" + post);
    LastPrinted(values);
  }

  /** Text without `x` starts no match: in particular any log whose list follows such text. */
  lemma NoXNoMatch(content: string, p: nat)
    requires p <= |content| && 'x' !in content[..p]
    ensures forall p': nat, q': nat, r': nat :: p' < p ==> !MatchesAt(content, p', q', r')
  {
    forall p': nat, q': nat, r': nat | p' < p ensures !MatchesAt(content, p', q', r') {
      assert content[p'] == content[..p][p'];
    }
  }

  /** An `x` that is not followed by `:` starts no match either, so a log such as
      `max 3\nx: [1, 2]` reports 2. */
  lemma MaxLogReportsLast()
    ensures LatencyFromLog("max 3\nx: [1, 2]") == Some(2)
  {
    var pre := "max 3\n";
    var content := pre + "x: [" + Render([1, 2]) + "]" + "";
    assert Render([1, 2]) == "1, 2" by {
      assert NatToString(1) == "1" && NatToString(2) == "2";
      assert Piece([1, 2], 0) == "1" && Piece([1, 2], 1) == " 2";
      var ps := Pieces([1, 2]);
      assert ps == ["1", " 2"];
      assert ps[1..] == [" 2"];
      assert Join(ps, ',') == "1" + [','] + " 2";
    }
    assert content == "max 3\nx: [1, 2]";
    forall p': nat, q': nat, r': nat | p' < |pre| ensures !MatchesAt(content, p', q', r') {
      if p' == 2 {
        assert content[3] == ' ';
      } else {
        assert content[p'] != 'x';
      }
    }
    LoggedListRoundTrip(pre, [1, 2], "");
  }

  /** The record written for one vCPU count. Latency and cost are exact reals here. */
  datatype ProfileRecord = ProfileRecord(app: string, config: string, latency: real, cost: real, profile: string)

  const App := "hotelsearchv3"
  const Vcpus: seq<nat> := [1, 2, 3, 4, 5]

  /** The configuration label `1-<millicores>-0`. */
  function Config(vcpu: nat): (r: string) {
    "1-" + NatToString(vcpu * 1000) + "-0"
  }

  /** The label splits at its dashes into `1`, the millicores and `0`, so it determines the
      vCPU count. */
  lemma ConfigFields(vcpu: nat)
    ensures Split(Config(vcpu), '-') == ["1", NatToString(vcpu * 1000), "0"]
    ensures ParseInt(Split(Config(vcpu), '-')[1]) == Some(vcpu * 1000 as int)
  {
    var parts := ["1", NatToString(vcpu * 1000), "0"];
    assert Join(parts, '-') == Config(vcpu) by {
      assert parts[1..] == [NatToString(vcpu * 1000), "0"];
      assert parts[1..][1..] == ["0"];
      assert Join(parts[1..], '-') == NatToString(vcpu * 1000) + "-0";
    }
    assert '-' !in NatToString(vcpu * 1000) by {
      assert forall k :: 0 <= k < |NatToString(vcpu * 1000)| ==> IsDigit(NatToString(vcpu * 1000)[k]);
    }
    SplitJoin(parts, '-');
    IntRoundTrip(vcpu * 1000);
  }

  lemma ConfigsDistinct(v1: nat, v2: nat)
    requires v1 != v2
    ensures Config(v1) != Config(v2)
  {
    ConfigFields(v1);
    ConfigFields(v2);
  }

  /** The cost of a run, `(vcpu * latency) / 30`. */
  function Cost(vcpu: nat, latency: real): (r: real) {
    (vcpu as real * latency) / 30.0
  }

  /** The cost is the latency scaled by the vCPU count, over 30. */
  lemma CostScales(vcpu: nat, latency: real)
    ensures Cost(vcpu, latency) * 30.0 == vcpu as real * latency
  {
  }

  /** The record for a run that reported `ms` milliseconds. */
  function Record(vcpu: nat, ms: int): (rec: ProfileRecord)
    ensures rec.app == App && rec.config == Config(vcpu) && rec.profile == ""
    ensures rec.latency * 1000.0 == ms as real
  {
    var latency := ms as real * 0.001;
    ProfileRecord(App, Config(vcpu), latency, Cost(vcpu, latency), "")
  }

  /** A record's cost is `vcpu * latency / 30`. */
  lemma RecordCost(vcpu: nat, ms: int)
    ensures Record(vcpu, ms).cost * 30.0 == vcpu as real * Record(vcpu, ms).latency
  {
    CostScales(vcpu, Record(vcpu, ms).latency);
  }

  /** `run_command` once the restore command has run: `log` is the content of the plotting
      log, `None` when the file is missing. */
  function RunCommand(log: Option<string>): (r: Option<int>)
    ensures log.None? ==> r.None?
    ensures log.Some? ==> r == LatencyFromLog(log.value)
  {
    match log
    case None => None
    case Some(content) => LatencyFromLog(content)
  }

  /** The loop of `main` over the vCPU counts, where `run(v)` is what `run_command(v)`
      returned: multiplying a `None` latency by `0.001` raises `TypeError`, which ends the
      loop; it is recorded here as the vCPU count. */
  function Sweep(run: nat -> Option<int>, vcpus: seq<nat>): (r: Result<seq<ProfileRecord>, nat>)
    ensures r.Success? <==> forall i :: 0 <= i < |vcpus| ==> run(vcpus[i]).Some?
    ensures r.Success? ==> |r.value| == |vcpus| && forall i :: 0 <= i < |vcpus| ==>
      run(vcpus[i]).Some? && r.value[i] == Record(vcpus[i], run(vcpus[i]).value)
    decreases |vcpus|
  {
    if |vcpus| == 0 then Success([])
    else
      match run(vcpus[0])
      case None => Failure(vcpus[0])
      case Some(ms) =>
        match Sweep(run, vcpus[1..])
        case Failure(v) => Failure(v)
        case Success(rs) =>
          assert forall i :: 1 <= i < |vcpus| ==> vcpus[i] == vcpus[1..][i - 1];
          Success([Record(vcpus[0], ms)] + rs)
  }

  /** A crash of the loop names the first vCPU count whose run failed. */
  lemma {:induction false} SweepFirstFailure(run: nat -> Option<int>, vcpus: seq<nat>) returns (k: nat)
    requires Sweep(run, vcpus).Failure?
    ensures k < |vcpus| && vcpus[k] == Sweep(run, vcpus).error && run(vcpus[k]).None?
    ensures forall j :: 0 <= j < k ==> run(vcpus[j]).Some?
    decreases |vcpus|
  {
    if run(vcpus[0]).None? {
      k := 0;
    } else {
      var k' := SweepFirstFailure(run, vcpus[1..]);
      k := k' + 1;
      assert forall j :: 1 <= j < k ==> vcpus[j] == vcpus[1..][j - 1];
    }
  }

  lemma VcpusInOrder()
    ensures |Vcpus| == 5 && forall i :: 0 <= i < 5 ==> Vcpus[i] == i + 1
  {
  }

  /** `main` as written: the loop over one to five vCPUs. The first failed run aborts it
      before any output is written. */
  function Main(run: nat -> Option<int>): (r: Result<seq<ProfileRecord>, nat>)
    ensures r.Success? <==> forall v :: 1 <= v <= 5 ==> run(v).Some?
    ensures r.Success? ==> |r.value| == 5
  {
    VcpusInOrder();
    AllRunsSucceed(run, Vcpus);
    Sweep(run, Vcpus)
  }

  /** Over a sweep of one to five vCPUs, every run succeeding means every count from 1 to 5. */
  lemma AllRunsSucceed(run: nat -> Option<int>, vcpus: seq<nat>)
    requires |vcpus| == 5 && forall i :: 0 <= i < 5 ==> vcpus[i] == i + 1
    ensures (forall i :: 0 <= i < |vcpus| ==> run(vcpus[i]).Some?) <==> forall v :: 1 <= v <= 5 ==> run(v).Some?
  {
    if forall i :: 0 <= i < 5 ==> run(vcpus[i]).Some? {
      forall v | 1 <= v <= 5 ensures run(v).Some? {
        assert vcpus[v - 1] == v;
      }
    }
  }

  /** On success, `main` writes one record per vCPU count, in sweep order. */
  lemma MainRecords(run: nat -> Option<int>)
    requires Main(run).Success?
    ensures forall i :: 0 <= i < 5 ==> run(i + 1).Some? && Main(run).value[i] == Record(i + 1, run(i + 1).value)
  {
    VcpusInOrder();
  }

  /** A crash names the smallest vCPU count whose run failed. */
  lemma MainStopsAtFirstFailure(run: nat -> Option<int>)
    requires Main(run).Failure?
    ensures 1 <= Main(run).error <= 5
    ensures run(Main(run).error).None?
    ensures forall v :: 1 <= v < Main(run).error ==> run(v).Some?
  {
    var k := SweepFirstFailure(run, Vcpus);
    assert forall i :: 0 <= i < 5 ==> Vcpus[i] == i + 1;
    forall v | 1 <= v < Main(run).error ensures run(v).Some? {
      assert run(Vcpus[v - 1]).Some?;
    }
  }

  /** `main` as its `if latency is not None` test intends: failed runs are skipped and the
      others are recorded in sweep order. */
  function MainSkipping(run: nat -> Option<int>, vcpus: seq<nat>): (rs: seq<ProfileRecord>)
    ensures |rs| <= |vcpus|
    decreases |vcpus|
  {
    if |vcpus| == 0 then []
    else
      var rest := MainSkipping(run, vcpus[1..]);
      match run(vcpus[0])
      case None => rest
      case Some(ms) => [Record(vcpus[0], ms)] + rest
  }

  /** The vCPU counts whose runs succeeded, in sweep order. */
  function Succeeded(run: nat -> Option<int>, vcpus: seq<nat>): (vs: seq<nat>)
    ensures |vs| <= |vcpus|
    ensures forall i :: 0 <= i < |vs| ==> vs[i] in vcpus && run(vs[i]).Some?
    ensures forall v :: v in vcpus && run(v).Some? ==> v in vs
    decreases |vcpus|
  {
    if |vcpus| == 0 then []
    else
      var rest := Succeeded(run, vcpus[1..]);
      assert forall v :: v in vcpus[1..] ==> v in vcpus;
      assert forall v :: v in vcpus ==> v == vcpus[0] || v in vcpus[1..];
      if run(vcpus[0]).Some? then [vcpus[0]] + rest else rest
  }

  /** The skipping sweep records exactly the successful runs, one record each. */
  lemma {:induction false} MainSkippingRecords(run: nat -> Option<int>, vcpus: seq<nat>)
    ensures var vs := Succeeded(run, vcpus);
      var rs := MainSkipping(run, vcpus);
      |rs| == |vs| && forall i :: 0 <= i < |rs| ==> run(vs[i]).Some? && rs[i] == Record(vs[i], run(vs[i]).value)
    decreases |vcpus|
  {
    if |vcpus| > 0 {
      MainSkippingRecords(run, vcpus[1..]);
    }
  }

  /** With no failed run, every vCPU count is kept. */
  lemma {:induction false} SucceededAll(run: nat -> Option<int>, vcpus: seq<nat>)
    requires forall i :: 0 <= i < |vcpus| ==> run(vcpus[i]).Some?
    ensures Succeeded(run, vcpus) == vcpus
    decreases |vcpus|
  {
    if |vcpus| > 0 {
      SucceededAll(run, vcpus[1..]);
    }
  }

  /** When every run succeeds, skipping changes nothing: both versions give the same five
      records. */
  lemma MainSkippingAgrees(run: nat -> Option<int>)
    requires Main(run).Success?
    ensures MainSkipping(run, Vcpus) == Main(run).value
  {
    SucceededAll(run, Vcpus);
    MainSkippingRecords(run, Vcpus);
  }

  /** With the one-vCPU run failing, `main` as written crashes on that run. */
  lemma FirstRunFailureCrashes(run: nat -> Option<int>)
    requires run(1).None?
    ensures Main(run).Failure? && Main(run).error == 1
  {
    assert Main(run).Failure?;
    MainStopsAtFirstFailure(run);
  }

  /** When only the first run of a sweep fails, the skipping sweep records all the others. */
  lemma {:induction false} OnlyFirstFailureSkipped(run: nat -> Option<int>, vcpus: seq<nat>)
    requires |vcpus| > 0 && run(vcpus[0]).None?
    requires forall i :: 1 <= i < |vcpus| ==> run(vcpus[i]).Some?
    ensures var rs := MainSkipping(run, vcpus);
      |rs| == |vcpus| - 1 && forall i :: 0 <= i < |rs| ==> rs[i].config == Config(vcpus[i + 1])
  {
    var rest := vcpus[1..];
    assert forall i :: 0 <= i < |rest| ==> rest[i] == vcpus[i + 1];
    SucceededAll(run, rest);
    MainSkippingRecords(run, vcpus);
  }

  /** With only the one-vCPU run failing, the skipping sweep records the runs on two to
      five vCPUs. */
  lemma FirstRunFailureSkipped(run: nat -> Option<int>)
    requires run(1).None?
    requires forall v :: 2 <= v <= 5 ==> run(v).Some?
    ensures var rs := MainSkipping(run, Vcpus);
      |rs| == 4 && forall i :: 0 <= i < 4 ==> rs[i].config == Config(i + 2)
  {
    VcpusInOrder();
    OnlyFirstFailureSkipped(run, Vcpus);
  }

  /** The discrepancy: with the one-vCPU run failing and the others succeeding, `main` as
      written crashes on its first run while the intended sweep records the other four. */
  lemma MissingLogCrashes(run: nat -> Option<int>)
    requires run(1).None?
    requires forall v :: 2 <= v <= 5 ==> run(v).Some?
    ensures Main(run).Failure? && Main(run).error == 1
    ensures |MainSkipping(run, Vcpus)| == 4
    ensures forall i :: 0 <= i < 4 ==> MainSkipping(run, Vcpus)[i].config == Config(i + 2)
  {
    FirstRunFailureCrashes(run);
    FirstRunFailureSkipped(run);
  }
}
