/**
 * The package-9 address cutoff of hash_table.py, as the source compares it.
 *
 * The source compares `datetime.min + offset` for an offset departure, but the
 * datetime itself for a departure that came from text through strptime. strptime
 * dates its result 1900-01-01 while the cutoff is 10:20 on 0001-01-01, so every
 * text departure lies centuries after the cutoff. The model in Registry compares
 * the time of day instead, which is what the rule evidently intends.
 */
module Findings {
  import opened Wrappers
  import Clock
  import Registry

  /** A stored departure: a timedelta offset, or a datetime that strptime produced. */
  datatype Stamp = Delta(hours: real) | Parsed(hours: real)

  /** Days from 0001-01-01 (`datetime.min`) to 1900-01-01, the date strptime gives a bare time. */
  const DaysTo1900: nat := 693595

  /** The departure `_parse_time` keeps for a time argument: text as a parsed datetime, offsets unchanged. */
  function StampOf(a: Registry.TimeArg): Option<Stamp> {
    match a
    case Offset(h) => Some(Delta(h))
    case Text(s) => if Clock.ParseClock(s).Some? then Some(Parsed(Clock.ParseClock(s).value)) else None
  }

  /** Hours after 0001-01-01 00:00 of the datetime the source compares. */
  function Instant(s: Stamp): real {
    match s
    case Delta(h) => h
    case Parsed(h) => (DaysTo1900 * 24) as real + h
  }

  /** As written: `current_datetime >= update_time`, with the cutoff at 0001-01-01 10:20. */
  predicate AsWrittenAllowsAddress(s: Stamp) {
    Instant(s) >= Registry.AddressCutoff
  }

  /** As intended: the time of day reached the cutoff, whichever form the departure took. */
  predicate IntendedAllowsAddress(s: Stamp) {
    s.hours >= Registry.AddressCutoff
  }

  /** Every parsed departure passes the written comparison, whatever its time of day. */
  lemma AsWrittenPassesEveryParsedTime(h: real)
    requires h >= 0.0
    ensures AsWrittenAllowsAddress(Parsed(h))
  {
  }

  /** A 09:00:00 text departure: the written rule lets the address through, the intended one does not. */
  lemma AsWrittenCounterexample()
    ensures StampOf(Registry.Text("9:00:00")) == Some(Parsed(9.0))
    ensures AsWrittenAllowsAddress(Parsed(9.0)) && !IntendedAllowsAddress(Parsed(9.0))
  {
    assert Clock.ReadField("9:00:00", 0) == Some(Clock.Field(9, 1));
    assert Clock.ReadField("9:00:00", 2) == Some(Clock.Field(0, 4));
    assert Clock.ReadField("9:00:00", 5) == Some(Clock.Field(0, 7));
  }

  /** Days from 0001-01-01 to 10000-01-01: `datetime.min + offset` raises OverflowError unless it lands before then. */
  const DaysToEnd: nat := 3652059

  /**
   * The written comparison as Python evaluates it: None where `datetime.min + offset`
   * raises OverflowError (an offset before year 1 or past year 9999), else its outcome.
   */
  function AsWrittenCompare(s: Stamp): (r: Option<bool>)
    ensures r.None? <==> s.Delta? && (s.hours < 0.0 || s.hours >= (DaysToEnd * 24) as real)
    ensures r.Some? ==> (r.value <==> AsWrittenAllowsAddress(s))
  {
    match s
    case Delta(h) => if 0.0 <= h < (DaysToEnd * 24) as real then Some(AsWrittenAllowsAddress(s)) else None
    case Parsed(_) => Some(AsWrittenAllowsAddress(s))
  }

  /** For offset departures the written and the intended rule agree wherever the written one evaluates. */
  lemma OffsetsAgree(h: real)
    ensures AsWrittenCompare(Delta(h)).Some? ==> (AsWrittenCompare(Delta(h)).value <==> IntendedAllowsAddress(Delta(h)))
    ensures 0.0 <= h < 24.0 ==> AsWrittenCompare(Delta(h)).Some?
  {
  }

  /**
   * A negative offset departure for package 9 with a new address: Python raises
   * OverflowError at `datetime.min + current_time`, while the model's update returns
   * the record with the time written and the address kept.
   */
  lemma NegativeOffsetOverflows(p: Registry.Package, addr: string)
    requires p.id == Registry.CutoffPackage && addr != ""
    ensures AsWrittenCompare(Delta(-1.0)).None?
    ensures Registry.ApplyUpdate(p, Registry.Update(None, None, Some(Registry.Offset(-1.0)), Some(addr)))
            == Some(p.(departureTime := Some(-1.0)))
  {
  }

  /**
   * The corrected rule is the one the model applies: for package 9 with a new address,
   * the address is written exactly when the departure's time of day reached 10:20.
   */
  lemma ModelFollowsIntendedRule(p: Registry.Package, u: Registry.Update, s: Stamp)
    requires p.id == Registry.CutoffPackage && Registry.GivenAddress(u.newAddress)
    requires Registry.EffectiveTime(p, u) == Some(s.hours)
    requires u.newAddress.value != p.address
    ensures Registry.ApplyUpdate(p, u).Some?
    ensures Registry.ApplyUpdate(p, u).value.address == u.newAddress.value <==> IntendedAllowsAddress(s)
  {
    Registry.CutoffRule(p, u);
  }
}
