/** The booking handler: validate the requested hotel name and answer with a confirmation
    number derived from the name's hash. */
module BookHotel {
  import opened Results
  import opened Decimal

  /** The reply record: `{"status": "error", "message": ...}` or
      `{"status": "success", "hotel_name": ..., "confirmation_id": ...}`. */
  datatype Reply =
    | Rejected(message: string)
    | Confirmed(hotelName: string, confirmationId: string)
  {
    function Status(): (r: string) {
      if Rejected? then "error" else "success"
    }
  }

  const MissingName := "hotel_name missing"
  const IdPrefix := "CONF-"
  const IdModulus := 1000000

  /** Python's `%` with a positive divisor: the remainder lies in `[0, m)` and differs from
      `a` by a multiple of `m`. */
  function PyMod(a: int, m: int): (r: int)
    requires m > 0
    ensures 0 <= r < m
    ensures exists q :: a == q * m + r
  {
    var r := a % m;
    assert a == (a / m) * m + r;
    r
  }

  /** The confirmation number of a name whose hash is `h`: `CONF-` and the decimal digits of
      `h mod 1000000`. */
  function ConfirmationId(h: int): (id: string)
    ensures |id| > |IdPrefix| && id[..|IdPrefix|] == IdPrefix
  {
    IdPrefix + NatToString(PyMod(h, IdModulus))
  }

  /** The handler. `name` is `event.get("hotel_name")`, `None` when the key is absent, and
      `hash` is Python's string hash for the running process. */
  function Book(name: Option<string>, hash: string -> int): (r: Reply)
    ensures r.Rejected? <==> name.None? || name.value == ""
    ensures r.Rejected? ==> r.Status() == "error" && r.message == MissingName
    ensures r.Confirmed? ==> r.Status() == "success" && r.hotelName == name.value
    ensures r.Confirmed? ==> r.confirmationId == ConfirmationId(hash(name.value))
  {
    match name
    case None => Rejected(MissingName)
    case Some(n) => if n == "" then Rejected(MissingName) else Confirmed(n, ConfirmationId(hash(n)))
  }

  /** The number after `CONF-` reads back as the hash reduced modulo 1000000, so it lies in
      `[0, 999999]`. */
  lemma ConfirmationIdReads(h: int)
    ensures var id := ConfirmationId(h);
      var n := ParseInt(id[|IdPrefix|..]);
      n.Some? && 0 <= n.value < IdModulus && (h - n.value) % IdModulus == 0
  {
    var id := ConfirmationId(h);
    var r := PyMod(h, IdModulus);
    assert id[|IdPrefix|..] == NatToString(r);
    IntRoundTrip(r);
    var q :| h == q * IdModulus + r;
    assert h - r == q * IdModulus;
  }

  /** `str` is injective on the naturals. */
  lemma NatToStringInjective(a: nat, b: nat)
    requires NatToString(a) == NatToString(b)
    ensures a == b
  {
    DigitsValueOfNatToString(a);
    DigitsValueOfNatToString(b);
  }

  /** Two numbers have the same remainder exactly when their difference is a multiple. */
  lemma SameRemainder(a: int, b: int)
    ensures PyMod(a, IdModulus) == PyMod(b, IdModulus) <==> (a - b) % IdModulus == 0
  {
    var qa, ra := a / IdModulus, a % IdModulus;
    var qb, rb := b / IdModulus, b % IdModulus;
    assert a - b == (qa - qb) * IdModulus + (ra - rb);
    var d := a - b;
    assert d == (d / IdModulus) * IdModulus + d % IdModulus;
    if d % IdModulus == 0 {
      assert (d / IdModulus - (qa - qb)) * IdModulus == ra - rb;
    }
  }

  /** Two hashes give the same confirmation number exactly when they agree modulo 1000000. */
  lemma ConfirmationIdsAgree(h1: int, h2: int)
    ensures ConfirmationId(h1) == ConfirmationId(h2) <==> (h1 - h2) % IdModulus == 0
  {
    var r1 := PyMod(h1, IdModulus);
    var r2 := PyMod(h2, IdModulus);
    if ConfirmationId(h1) == ConfirmationId(h2) {
      assert ConfirmationId(h1)[|IdPrefix|..] == NatToString(r1);
      assert ConfirmationId(h2)[|IdPrefix|..] == NatToString(r2);
      NatToStringInjective(r1, r2);
    }
    SameRemainder(h1, h2);
  }
}
