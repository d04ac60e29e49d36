/** The HTTP status-code oracle: after each action it looks at the status code of every
    request the page made and reports the ones the configuration forbids. */
module HttpOracle {
  import opened Strings

  /** A reported failure: its message. */
  datatype FailureReason = FailureReason(message: string)

  /** The status map of the last requests, one (uri, status code) entry per request, in
      the map's iteration order. */
  type StatusEntries = seq<(string, int)>

  /** The codes of a list, as a set. */
  function CodeSet(codes: seq<int>): (s: set<int>)
    ensures forall c :: c in s <==> c in codes
  {
    set k | 0 <= k < |codes| :: codes[k]
  }

  /** The failure for a code outside the allowed set: "HTTP <code> for <uri> not allowed". */
  function NotAllowed(uri: string, statusCode: int): FailureReason {
    FailureReason("HTTP " + IntToString(statusCode) + " for " + uri + " not allowed")
  }

  /** The failure for a code in the disallowed set: "HTTP <code> for <uri> disallowed". */
  function Disallowed(uri: string, statusCode: int): FailureReason {
    FailureReason("HTTP " + IntToString(statusCode) + " for " + uri + " disallowed")
  }

  /** Both messages name the code and the uri after "HTTP ", and the two kinds end
      differently, so a reader can tell them apart. */
  lemma MessageShapes(uri: string, statusCode: int)
    ensures NotAllowed(uri, statusCode).message[..5] == "HTTP " && Disallowed(uri, statusCode).message[..5] == "HTTP "
    ensures |NotAllowed(uri, statusCode).message| == |IntToString(statusCode)| + |uri| + 22
    ensures |Disallowed(uri, statusCode).message| == |IntToString(statusCode)| + |uri| + 21
    ensures NotAllowed(uri, statusCode) != Disallowed(uri, statusCode)
  {
    var n := NotAllowed(uri, statusCode).message;
    var d := Disallowed(uri, statusCode).message;
    assert |n| != |d|;
  }

  // ---------------------------------------------------------------------------
  // `check` as written: the allowed test asks the set whether it holds the whole status
  // map, which it never does, and the disallowed test sits inside the allowed branch.

  /** What `check` reports for one entry, as written. */
  function EntryFailuresAsWritten(allowed: set<int>, disallowed: set<int>, uri: string, statusCode: int): seq<FailureReason> {
    if allowed == {} then []
    else [NotAllowed(uri, statusCode)] + (if disallowed != {} && statusCode in disallowed then [Disallowed(uri, statusCode)] else [])
  }

  /** What `check` reports for the entries, as written, in order. */
  function FailuresAsWritten(allowed: set<int>, disallowed: set<int>, entries: StatusEntries): (r: seq<FailureReason>)
    ensures |r| <= 2 * |entries|
  {
    if entries == [] then []
    else
      var last := entries[|entries| - 1];
      FailuresAsWritten(allowed, disallowed, entries[..|entries| - 1]) + EntryFailuresAsWritten(allowed, disallowed, last.0, last.1)
  }

  /** As written, one more entry adds its own reports at the end. */
  lemma FailuresAsWrittenSnoc(allowed: set<int>, disallowed: set<int>, entries: StatusEntries, i: nat)
    requires i < |entries|
    ensures FailuresAsWritten(allowed, disallowed, entries[..i + 1])
            == FailuresAsWritten(allowed, disallowed, entries[..i]) + EntryFailuresAsWritten(allowed, disallowed, entries[i].0, entries[i].1)
  {
    assert entries[..i + 1][..i] == entries[..i];
  }

  /** As written, an empty allowed set silences the oracle, whatever is disallowed. */
  lemma {:induction false} AsWrittenSilentWithoutAllowed(disallowed: set<int>, entries: StatusEntries)
    ensures FailuresAsWritten({}, disallowed, entries) == []
  {
    if entries != [] {
      AsWrittenSilentWithoutAllowed(disallowed, entries[..|entries| - 1]);
    }
  }

  /** As written, a non-empty allowed set reports every entry as not allowed, whatever
      its code. */
  lemma {:induction false} AsWrittenReportsEveryEntry(allowed: set<int>, disallowed: set<int>, entries: StatusEntries)
    requires allowed != {}
    ensures forall i :: 0 <= i < |entries| ==> NotAllowed(entries[i].0, entries[i].1) in FailuresAsWritten(allowed, disallowed, entries)
  {
    forall i | 0 <= i < |entries|
      ensures NotAllowed(entries[i].0, entries[i].1) in FailuresAsWritten(allowed, disallowed, entries)
    {
      AsWrittenReportsEntry(allowed, disallowed, entries, i);
    }
  }

  lemma {:induction false} AsWrittenReportsEntry(allowed: set<int>, disallowed: set<int>, entries: StatusEntries, i: nat)
    requires allowed != {} && i < |entries|
    ensures NotAllowed(entries[i].0, entries[i].1) in FailuresAsWritten(allowed, disallowed, entries)
    decreases |entries|
  {
    var init := entries[..|entries| - 1];
    var last := entries[|entries| - 1];
    var x := NotAllowed(entries[i].0, entries[i].1);
    var here := EntryFailuresAsWritten(allowed, disallowed, last.0, last.1);
    if i < |init| {
      assert init[i] == entries[i];
      AsWrittenReportsEntry(allowed, disallowed, init, i);
      InConcatLeft(x, FailuresAsWritten(allowed, disallowed, init), here);
    } else {
      assert i == |entries| - 1 && entries[i] == last;
      assert here[0] == x;
      InConcatRight(x, FailuresAsWritten(allowed, disallowed, init), here);
    }
  }

  /** A request answered 200 when only 200 is allowed is still reported. */
  lemma AllowedCodeReportedAsWritten()
    ensures FailuresAsWritten({200}, {}, [("http://a/", 200)]) == [NotAllowed("http://a/", 200)]
    ensures Failures({200}, {}, [("http://a/", 200)]) == []
  {
    var entries: StatusEntries := [("http://a/", 200)];
    assert entries[..0] == [];
  }

  /** A request answered 500 when 500 is disallowed and nothing is listed as allowed goes
      unreported. */
  lemma DisallowedCodeMissedAsWritten()
    ensures FailuresAsWritten({}, {500}, [("http://a/", 500)]) == []
    ensures Failures({}, {500}, [("http://a/", 500)]) == [Disallowed("http://a/", 500)]
  {
    var entries: StatusEntries := [("http://a/", 500)];
    assert entries[..0] == [];
  }

  // ---------------------------------------------------------------------------
  // `check` as intended: the two tests, each on the entry's code, independently.

  /** Whether a code passes both tests: it is allowed (or no code is singled out as
      allowed) and it is not disallowed. */
  predicate Acceptable(allowed: set<int>, disallowed: set<int>, statusCode: int) {
    (allowed == {} || statusCode in allowed) && statusCode !in disallowed
  }

  /** What `check` reports for one entry: not allowed, then disallowed, as they apply. */
  function EntryFailures(allowed: set<int>, disallowed: set<int>, uri: string, statusCode: int): (r: seq<FailureReason>)
    ensures r == [] <==> Acceptable(allowed, disallowed, statusCode)
  {
    (if allowed != {} && statusCode !in allowed then [NotAllowed(uri, statusCode)] else [])
    + (if statusCode in disallowed then [Disallowed(uri, statusCode)] else [])
  }

  /** What `check` reports for the entries, in order. */
  function Failures(allowed: set<int>, disallowed: set<int>, entries: StatusEntries): (r: seq<FailureReason>)
    ensures |r| <= 2 * |entries|
  {
    if entries == [] then []
    else
      var last := entries[|entries| - 1];
      Failures(allowed, disallowed, entries[..|entries| - 1]) + EntryFailures(allowed, disallowed, last.0, last.1)
  }

  /** One more entry adds its own reports at the end. */
  lemma FailuresSnoc(allowed: set<int>, disallowed: set<int>, entries: StatusEntries, i: nat)
    requires i < |entries|
    ensures Failures(allowed, disallowed, entries[..i + 1])
            == Failures(allowed, disallowed, entries[..i]) + EntryFailures(allowed, disallowed, entries[i].0, entries[i].1)
  {
    assert entries[..i + 1][..i] == entries[..i];
  }

  /** The oracle is silent exactly when every entry's code is acceptable. */
  lemma {:induction false} SilentIffAllAcceptable(allowed: set<int>, disallowed: set<int>, entries: StatusEntries)
    ensures Failures(allowed, disallowed, entries) == []
            <==> forall i :: 0 <= i < |entries| ==> Acceptable(allowed, disallowed, entries[i].1)
  {
    if entries != [] {
      var init := entries[..|entries| - 1];
      var last := entries[|entries| - 1];
      SilentIffAllAcceptable(allowed, disallowed, init);
      var here := EntryFailures(allowed, disallowed, last.0, last.1);
      assert Failures(allowed, disallowed, entries) == Failures(allowed, disallowed, init) + here;
      assert forall i :: 0 <= i < |init| ==> init[i] == entries[i];
    }
  }

  /** An entry whose code is outside a non-empty allowed set is reported as not allowed. */
  lemma {:induction false} NotAllowedReportedAt(allowed: set<int>, disallowed: set<int>, entries: StatusEntries, i: nat)
    requires i < |entries| && allowed != {} && entries[i].1 !in allowed
    ensures NotAllowed(entries[i].0, entries[i].1) in Failures(allowed, disallowed, entries)
    decreases |entries|
  {
    var init := entries[..|entries| - 1];
    var last := entries[|entries| - 1];
    var x := NotAllowed(entries[i].0, entries[i].1);
    if i < |init| {
      assert init[i] == entries[i];
      NotAllowedReportedAt(allowed, disallowed, init, i);
      InConcatLeft(x, Failures(allowed, disallowed, init), EntryFailures(allowed, disallowed, last.0, last.1));
    } else {
      assert i == |entries| - 1 && entries[i] == last;
      EntryNotAllowed(allowed, disallowed, last.0, last.1);
      InConcatRight(x, Failures(allowed, disallowed, init), EntryFailures(allowed, disallowed, last.0, last.1));
    }
  }

  lemma EntryNotAllowed(allowed: set<int>, disallowed: set<int>, uri: string, statusCode: int)
    requires allowed != {} && statusCode !in allowed
    ensures NotAllowed(uri, statusCode) in EntryFailures(allowed, disallowed, uri, statusCode)
  {
  }

  lemma EntryDisallowed(allowed: set<int>, disallowed: set<int>, uri: string, statusCode: int)
    requires statusCode in disallowed
    ensures Disallowed(uri, statusCode) in EntryFailures(allowed, disallowed, uri, statusCode)
  {
  }

  /** Every entry whose code is outside a non-empty allowed set is reported as not
      allowed. */
  lemma NotAllowedReported(allowed: set<int>, disallowed: set<int>, entries: StatusEntries)
    ensures forall i :: 0 <= i < |entries| && allowed != {} && entries[i].1 !in allowed ==>
              NotAllowed(entries[i].0, entries[i].1) in Failures(allowed, disallowed, entries)
  {
    forall i | 0 <= i < |entries| && allowed != {} && entries[i].1 !in allowed
      ensures NotAllowed(entries[i].0, entries[i].1) in Failures(allowed, disallowed, entries)
    {
      NotAllowedReportedAt(allowed, disallowed, entries, i);
    }
  }

  /** An entry whose code is in the disallowed set is reported as disallowed. */
  lemma {:induction false} DisallowedReportedAt(allowed: set<int>, disallowed: set<int>, entries: StatusEntries, i: nat)
    requires i < |entries| && entries[i].1 in disallowed
    ensures Disallowed(entries[i].0, entries[i].1) in Failures(allowed, disallowed, entries)
    decreases |entries|
  {
    var init := entries[..|entries| - 1];
    var last := entries[|entries| - 1];
    var x := Disallowed(entries[i].0, entries[i].1);
    if i < |init| {
      assert init[i] == entries[i];
      DisallowedReportedAt(allowed, disallowed, init, i);
      InConcatLeft(x, Failures(allowed, disallowed, init), EntryFailures(allowed, disallowed, last.0, last.1));
    } else {
      assert i == |entries| - 1 && entries[i] == last;
      EntryDisallowed(allowed, disallowed, last.0, last.1);
      InConcatRight(x, Failures(allowed, disallowed, init), EntryFailures(allowed, disallowed, last.0, last.1));
    }
  }

  /** Every entry whose code is in the disallowed set is reported as disallowed. */
  lemma DisallowedReported(allowed: set<int>, disallowed: set<int>, entries: StatusEntries)
    ensures forall i :: 0 <= i < |entries| && entries[i].1 in disallowed ==>
              Disallowed(entries[i].0, entries[i].1) in Failures(allowed, disallowed, entries)
  {
    forall i | 0 <= i < |entries| && entries[i].1 in disallowed
      ensures Disallowed(entries[i].0, entries[i].1) in Failures(allowed, disallowed, entries)
    {
      DisallowedReportedAt(allowed, disallowed, entries, i);
    }
  }

  lemma InConcatLeft<T>(x: T, xs: seq<T>, ys: seq<T>)
    requires x in xs
    ensures x in xs + ys
  {
    var k :| 0 <= k < |xs| && xs[k] == x;
    assert (xs + ys)[k] == x;
  }

  lemma InConcatRight<T>(x: T, xs: seq<T>, ys: seq<T>)
    requires x in ys
    ensures x in xs + ys
  {
    var k :| 0 <= k < |ys| && ys[k] == x;
    assert (xs + ys)[|xs| + k] == x;
  }

  /** The oracle: the codes every response must be among (when any are given) and the
      codes no response may have. */
  class HttpStatusCodeOracle {
    var allowedStatusCodes: set<int>
    var disallowedStatusCodes: set<int>

    /** A new oracle has neither kind of code. */
    constructor()
      ensures allowedStatusCodes == {} && disallowedStatusCodes == {}
    {
      allowedStatusCodes := {};
      disallowedStatusCodes := {};
    }

    /** `setAllowedStatusCodes`: adds the codes to the allowed set and returns the oracle. */
    method SetAllowedStatusCodes(codes: seq<int>) returns (self: HttpStatusCodeOracle)
      modifies this
      ensures self == this
      ensures allowedStatusCodes == old(allowedStatusCodes) + CodeSet(codes)
      ensures disallowedStatusCodes == old(disallowedStatusCodes)
    {
      for i := 0 to |codes|
        invariant allowedStatusCodes == old(allowedStatusCodes) + CodeSet(codes[..i])
        invariant disallowedStatusCodes == old(disallowedStatusCodes)
      {
        allowedStatusCodes := allowedStatusCodes + {codes[i]};
        assert CodeSet(codes[..i + 1]) == CodeSet(codes[..i]) + {codes[i]} by {
          assert codes[..i + 1] == codes[..i] + [codes[i]];
        }
      }
      assert codes[..|codes|] == codes;
      return this;
    }

    /** `setDisallowedStatusCodes`: adds the codes to the disallowed set and returns the
        oracle. */
    method SetDisallowedStatusCodes(codes: seq<int>) returns (self: HttpStatusCodeOracle)
      modifies this
      ensures self == this
      ensures disallowedStatusCodes == old(disallowedStatusCodes) + CodeSet(codes)
      ensures allowedStatusCodes == old(allowedStatusCodes)
    {
      for i := 0 to |codes|
        invariant disallowedStatusCodes == old(disallowedStatusCodes) + CodeSet(codes[..i])
        invariant allowedStatusCodes == old(allowedStatusCodes)
      {
        disallowedStatusCodes := disallowedStatusCodes + {codes[i]};
        assert CodeSet(codes[..i + 1]) == CodeSet(codes[..i]) + {codes[i]} by {
          assert codes[..i + 1] == codes[..i] + [codes[i]];
        }
      }
      assert codes[..|codes|] == codes;
      return this;
    }

    /** The body of `check`'s loop as written, for one entry: a non-empty allowed set
        reports it, and only then are disallowed codes looked at. */
    method CheckEntryAsWritten(uri: string, statusCode: int) returns (here: seq<FailureReason>)
      ensures here == EntryFailuresAsWritten(allowedStatusCodes, disallowedStatusCodes, uri, statusCode)
    {
      here := [];
      if allowedStatusCodes != {} {
        here := here + [NotAllowed(uri, statusCode)];
        if disallowedStatusCodes != {} {
          if statusCode in disallowedStatusCodes {
            here := here + [Disallowed(uri, statusCode)];
          }
        }
      }
    }

    /** `check` as written: every entry's reports, in order. */
    method CheckAsWritten(statusCodes: StatusEntries) returns (result: seq<FailureReason>)
      ensures result == FailuresAsWritten(allowedStatusCodes, disallowedStatusCodes, statusCodes)
    {
      result := [];
      for i := 0 to |statusCodes|
        invariant result == FailuresAsWritten(allowedStatusCodes, disallowedStatusCodes, statusCodes[..i])
      {
        var here := CheckEntryAsWritten(statusCodes[i].0, statusCodes[i].1);
        FailuresAsWrittenSnoc(allowedStatusCodes, disallowedStatusCodes, statusCodes, i);
        result := result + here;
      }
      assert statusCodes[..|statusCodes|] == statusCodes;
    }

    /** The body of `check`'s loop, for one entry: not allowed when the allowed set is
        non-empty and lacks its code; disallowed when the disallowed set holds it. The
        entry is reported exactly when its code is not acceptable. */
    method CheckEntry(uri: string, statusCode: int) returns (here: seq<FailureReason>)
      ensures here == EntryFailures(allowedStatusCodes, disallowedStatusCodes, uri, statusCode)
      ensures here == [] <==> Acceptable(allowedStatusCodes, disallowedStatusCodes, statusCode)
    {
      here := [];
      if allowedStatusCodes != {} && statusCode !in allowedStatusCodes {
        here := here + [NotAllowed(uri, statusCode)];
      }
      if statusCode in disallowedStatusCodes {
        here := here + [Disallowed(uri, statusCode)];
      }
    }

    /** `check`: every entry's reports, in order; silent exactly when every code is
        acceptable. */
    method Check(statusCodes: StatusEntries) returns (result: seq<FailureReason>)
      ensures result == Failures(allowedStatusCodes, disallowedStatusCodes, statusCodes)
      ensures result == [] <==> forall i :: 0 <= i < |statusCodes| ==> Acceptable(allowedStatusCodes, disallowedStatusCodes, statusCodes[i].1)
    {
      result := [];
      for i := 0 to |statusCodes|
        invariant result == Failures(allowedStatusCodes, disallowedStatusCodes, statusCodes[..i])
      {
        var here := CheckEntry(statusCodes[i].0, statusCodes[i].1);
        FailuresSnoc(allowedStatusCodes, disallowedStatusCodes, statusCodes, i);
        result := result + here;
      }
      assert statusCodes[..|statusCodes|] == statusCodes;
      SilentIffAllAcceptable(allowedStatusCodes, disallowedStatusCodes, statusCodes);
    }
  }
}
