/**
 * Time windows `HH:MM-HH:MM` and the containment test `hours_intersect`
 * (utils.py:44-58). A time of day is kept as minutes since midnight: the
 * source compares the `time.struct_time` values of two `strptime` results,
 * whose only differing fields are hour and minute, so their order is the
 * order of hour * 60 + minute.
 */
module TimeWindows {
  import opened Wrappers

  datatype Window = Window(start: nat, end: nat)

  /** `w` fully covers `d`: it starts no later and ends no earlier. */
  predicate Contains(w: Window, d: Window) {
    w.start <= d.start && w.end >= d.end
  }

  // ---------------------------------------------------------------------
  // str.split

  /** Python's `s.split(sep)`: always at least one part, parts never hold `sep`. */
  function Split(s: string, sep: char): (parts: seq<string>)
    ensures |parts| >= 1
    ensures forall i :: 0 <= i < |parts| ==> sep !in parts[i]
  {
    if s == [] then [[]]
    else
      var rest := Split(s[1..], sep);
      if s[0] == sep then [[]] + rest
      else [[s[0]] + rest[0]] + rest[1..]
  }

  /** `sep.join(parts)`, the inverse of `Split`. */
  function Join(parts: seq<string>, sep: char): string
    requires |parts| >= 1
  {
    if |parts| == 1 then parts[0] else parts[0] + [sep] + Join(parts[1..], sep)
  }

  lemma {:induction false} SplitJoin(s: string, sep: char)
    ensures Join(Split(s, sep), sep) == s
  {
    if s != [] {
      SplitJoin(s[1..], sep);
      var rest := Split(s[1..], sep);
      if s[0] != sep {
        if |rest| == 1 {
        } else {
          assert Join(rest, sep) == rest[0] + [sep] + Join(rest[1..], sep);
          assert [[s[0]] + rest[0]] + rest[1..] == [[s[0]] + rest[0]] + rest[1..];
        }
      }
    }
  }

  /** A piece without the separator followed by the separator and more text splits there. */
  lemma {:induction false} SplitAt(a: string, b: string, sep: char)
    requires sep !in a
    ensures Split(a + [sep] + b, sep) == [a] + Split(b, sep)
  {
    if a != [] {
      var s := a + [sep] + b;
      assert s[0] == a[0] && s[1..] == a[1..] + [sep] + b;
      SplitAt(a[1..], b, sep);
      assert [a[0]] + a[1..] == a;
    } else {
      assert a + [sep] + b == [sep] + b;
    }
  }

  lemma {:induction false} SplitNone(a: string, sep: char)
    requires sep !in a
    ensures Split(a, sep) == [a]
  {
    if a != [] {
      SplitNone(a[1..], sep);
      assert [a[0]] + a[1..] == a;
    }
  }

  // ---------------------------------------------------------------------
  // time.strptime(part, '%H:%M')

  function DigitValue(c: char): (r: Option<nat>)
    ensures r.Some? <==> '0' <= c <= '9'
    ensures r.Some? ==> r.value < 10
  {
    if '0' <= c <= '9' then Some(c as nat - '0' as nat) else None
  }

  /**
   * One or two ASCII digits whose value is at most `max`. With max 23 this is
   * the regular expression `2[0-3]|[0-1]\d|\d` of `%H`, with max 59 the
   * expression `[0-5]\d|\d` of `%M`, both matched against the whole field.
   */
  function ParseField(s: string, max: nat): (r: Option<nat>)
    ensures r.Some? ==> r.value <= max && 1 <= |s| <= 2
  {
    if |s| == 1 then
      match DigitValue(s[0])
      case None => None
      case Some(d) => if d <= max then Some(d) else None
    else if |s| == 2 then
      match (DigitValue(s[0]), DigitValue(s[1]))
      case (Some(d1), Some(d0)) => if d1 * 10 + d0 <= max then Some(d1 * 10 + d0) else None
      case _ => None
    else None
  }

  /**
   * `time.strptime(part, '%H:%M')` reduced to minutes since midnight. The
   * colon is the second or third character; the fields on each side are
   * parsed by `ParseField`, and anything left over is "unconverted data".
   */
  function ParseClock(p: string): (r: Option<nat>)
    ensures r.Some? ==> r.value < 24 * 60
  {
    if |p| >= 2 && p[1] == ':' then
      match (ParseField(p[..1], 23), ParseField(p[2..], 59))
      case (Some(h), Some(m)) => Some(h * 60 + m)
      case _ => None
    else if |p| >= 3 && p[2] == ':' then
      match (ParseField(p[..2], 23), ParseField(p[3..], 59))
      case (Some(h), Some(m)) => Some(h * 60 + m)
      case _ => None
    else None
  }

  /**
   * `transform_to_dt`: split on '-', parse the first two parts. Fewer than two
   * parts is an IndexError, an unparsable part a ValueError; both are `None`.
   * Parts after the second are never looked at.
   */
  function TransformToDt(bounds: string): (r: Option<Window>)
    ensures r.Some? ==> r.value.start < 1440 && r.value.end < 1440
  {
    var parts := Split(bounds, '-');
    if |parts| < 2 then None
    else
      match (ParseClock(parts[0]), ParseClock(parts[1]))
      case (Some(s), Some(e)) => Some(Window(s, e))
      case _ => None
  }

  // ---------------------------------------------------------------------
  // The canonical text form and its round trip

  function TwoDigits(n: nat): (s: string)
    requires n < 100
    ensures |s| == 2
  {
    ['0' + (n / 10) as char, '0' + (n % 10) as char]
  }

  /** `HH:MM`, zero-padded, for a time of day. */
  function FormatClock(m: nat): (s: string)
    requires m < 1440
    ensures |s| == 5 && '-' !in s
  {
    TwoDigits(m / 60) + ":" + TwoDigits(m % 60)
  }

  /** The form `HH:MM-HH:MM` in which windows are written and stored. */
  function FormatWindow(w: Window): (s: string)
    requires w.start < 1440 && w.end < 1440
    ensures |s| == 11
  {
    FormatClock(w.start) + "-" + FormatClock(w.end)
  }

  lemma ParseFormatClock(m: nat)
    requires m < 1440
    ensures ParseClock(FormatClock(m)) == Some(m)
  {
    var s := FormatClock(m);
    var h, mm := m / 60, m % 60;
    assert s[2] == ':';
    assert s[..2] == TwoDigits(h);
    assert s[3..] == TwoDigits(mm);
    assert DigitValue(s[0]) == Some(h / 10);
    assert DigitValue(s[1]) == Some(h % 10);
    assert ParseField(s[..2], 23) == Some(h);
    assert ParseField(s[3..], 59) == Some(mm);
  }

  /** Every well-formed window survives being written out and read back. */
  lemma {:induction false} TransformFormatRoundTrip(w: Window)
    requires w.start < 1440 && w.end < 1440
    ensures TransformToDt(FormatWindow(w)) == Some(w)
  {
    var a, b := FormatClock(w.start), FormatClock(w.end);
    SplitAt(a, b, '-');
    SplitNone(b, '-');
    assert FormatWindow(w) == a + ['-'] + b;
    ParseFormatClock(w.start);
    ParseFormatClock(w.end);
  }

  // ---------------------------------------------------------------------
  // hours_intersect

  /**
   * The inner loop of `hours_intersect` for one working window `w`: parses the
   * delivery windows in order and stops at the first one `w` contains.
   */
  function AnyContained(w: Window, delivery: seq<string>): (r: Option<bool>)
    ensures r == Some(false) ==> AllParse(delivery)
  {
    if delivery == [] then Some(false)
    else
      match TransformToDt(delivery[0])
      case None => None
      case Some(d) =>
        if Contains(w, d) then Some(true)
        else
          var rest := AnyContained(w, delivery[1..]);
          assert rest == Some(false) ==> forall i :: 1 <= i < |delivery| ==> delivery[i] == delivery[1..][i - 1];
          rest
  }

  /**
   * `hours_intersect`: for each working window in order, parse it, then scan
   * the delivery windows. `Some(true)` at the first covered pair, `Some(false)`
   * when the loops run out, `None` when a window reached by the loops does not
   * parse (the ValueError raised by `strptime`).
   */
  function HoursIntersect(working: seq<string>, delivery: seq<string>): (r: Option<bool>)
    ensures r == Some(false) ==> AllParse(working) && (working != [] ==> AllParse(delivery))
  {
    if working == [] then Some(false)
    else
      match TransformToDt(working[0])
      case None => None
      case Some(w) =>
        match AnyContained(w, delivery)
        case None => None
        case Some(true) => Some(true)
        case Some(false) =>
          var rest := HoursIntersect(working[1..], delivery);
          assert rest == Some(false) ==> forall i :: 1 <= i < |working| ==> working[i] == working[1..][i - 1];
          rest
  }

  /** Every entry of the list parses. */
  predicate AllParse(windows: seq<string>) {
    forall i :: 0 <= i < |windows| ==> TransformToDt(windows[i]).Some?
  }

  /** Some working window contains some delivery window (both as parsed). */
  predicate SomeCovered(working: seq<string>, delivery: seq<string>)
    requires AllParse(working) && AllParse(delivery)
  {
    exists i, j :: 0 <= i < |working| && 0 <= j < |delivery| &&
      Contains(TransformToDt(working[i]).value, TransformToDt(delivery[j]).value)
  }

  lemma {:induction false} AnyContainedIff(w: Window, delivery: seq<string>)
    requires AllParse(delivery)
    ensures AnyContained(w, delivery) ==
      Some(exists j :: 0 <= j < |delivery| && Contains(w, TransformToDt(delivery[j]).value))
  {
    if delivery != [] {
      AnyContainedIff(w, delivery[1..]);
      var d := TransformToDt(delivery[0]).value;
      if !Contains(w, d) {
        if exists j :: 0 <= j < |delivery| && Contains(w, TransformToDt(delivery[j]).value) {
          var j :| 0 <= j < |delivery| && Contains(w, TransformToDt(delivery[j]).value);
          assert delivery[1..][j - 1] == delivery[j];
        }
        forall j | 0 <= j < |delivery[1..]| ensures delivery[1..][j] == delivery[j + 1] {}
      }
    }
  }

  /** Dropping the first entry keeps every entry parsing. */
  lemma AllParseTail(windows: seq<string>)
    requires windows != [] && AllParse(windows)
    ensures AllParse(windows[1..])
  {
    forall i | 0 <= i < |windows[1..]| ensures TransformToDt(windows[1..][i]).Some? {
      assert windows[1..][i] == windows[i + 1];
    }
  }

  /** A covered pair through a later working window is a covered pair of the tail. */
  lemma CoveredLater(working: seq<string>, delivery: seq<string>, i: nat, j: nat)
    requires AllParse(working) && AllParse(delivery) && 0 < i < |working| && j < |delivery|
    requires Contains(TransformToDt(working[i]).value, TransformToDt(delivery[j]).value)
    ensures AllParse(working[1..]) && SomeCovered(working[1..], delivery)
  {
    AllParseTail(working);
    assert working[1..][i - 1] == working[i];
  }

  /** A covered pair of the tail is a covered pair of the whole list. */
  lemma CoveredTail(working: seq<string>, delivery: seq<string>)
    requires working != [] && AllParse(working) && AllParse(delivery)
    requires AllParse(working[1..]) && SomeCovered(working[1..], delivery)
    ensures SomeCovered(working, delivery)
  {
    var rest := working[1..];
    var i, j :| 0 <= i < |rest| && 0 <= j < |delivery| &&
      Contains(TransformToDt(rest[i]).value, TransformToDt(delivery[j]).value);
    assert rest[i] == working[i + 1];
  }

  /** A pair is covered through the first working window or through one of the others. */
  lemma SomeCoveredCons(working: seq<string>, delivery: seq<string>)
    requires working != [] && AllParse(working) && AllParse(delivery)
    ensures AllParse(working[1..])
    ensures SomeCovered(working, delivery) <==>
      (exists j :: 0 <= j < |delivery| && Contains(TransformToDt(working[0]).value, TransformToDt(delivery[j]).value)) ||
      SomeCovered(working[1..], delivery)
  {
    AllParseTail(working);
    if SomeCovered(working, delivery) {
      var i, j :| 0 <= i < |working| && 0 <= j < |delivery| &&
        Contains(TransformToDt(working[i]).value, TransformToDt(delivery[j]).value);
      if i > 0 {
        CoveredLater(working, delivery, i, j);
      }
    }
    if SomeCovered(working[1..], delivery) {
      CoveredTail(working, delivery);
    }
  }

  /**
   * With every window well formed, `hours_intersect` is true exactly when some
   * working window contains some delivery window.
   */
  lemma {:induction false} HoursIntersectIff(working: seq<string>, delivery: seq<string>)
    requires AllParse(working) && AllParse(delivery)
    ensures HoursIntersect(working, delivery) == Some(SomeCovered(working, delivery))
  {
    if working != [] {
      AnyContainedIff(TransformToDt(working[0]).value, delivery);
      SomeCoveredCons(working, delivery);
      HoursIntersectIff(working[1..], delivery);
    }
  }

  /** An order without delivery windows is never covered, however the working hours look. */
  lemma {:induction false} HoursIntersectNoDelivery(working: seq<string>)
    requires AllParse(working)
    ensures HoursIntersect(working, []) == Some(false)
  {
    if working != [] {
      var rest := working[1..];
      assert AllParse(rest) by {
        forall i | 0 <= i < |rest| ensures TransformToDt(rest[i]).Some? { assert rest[i] == working[i + 1]; }
      }
      HoursIntersectNoDelivery(rest);
    }
  }

  /** A true answer always has a witness pair, even when later windows are malformed. */
  lemma {:induction false} HoursIntersectWitness(working: seq<string>, delivery: seq<string>)
    requires HoursIntersect(working, delivery) == Some(true)
    ensures exists i, j :: (0 <= i < |working| && 0 <= j < |delivery| &&
      TransformToDt(working[i]).Some? && TransformToDt(delivery[j]).Some? &&
      Contains(TransformToDt(working[i]).value, TransformToDt(delivery[j]).value))
  {
    var w := TransformToDt(working[0]).value;
    if AnyContained(w, delivery) == Some(true) {
      var j := AnyContainedWitness(w, delivery);
      assert TransformToDt(working[0]).Some?;
    } else {
      HoursIntersectWitness(working[1..], delivery);
      var i, j :| 0 <= i < |working[1..]| && 0 <= j < |delivery| &&
        TransformToDt(working[1..][i]).Some? && TransformToDt(delivery[j]).Some? &&
        Contains(TransformToDt(working[1..][i]).value, TransformToDt(delivery[j]).value);
      assert working[1..][i] == working[i + 1];
    }
  }

  lemma {:induction false} AnyContainedWitness(w: Window, delivery: seq<string>) returns (j: nat)
    requires AnyContained(w, delivery) == Some(true)
    ensures j < |delivery| && TransformToDt(delivery[j]).Some? && Contains(w, TransformToDt(delivery[j]).value)
  {
    var d := TransformToDt(delivery[0]).value;
    if Contains(w, d) {
      j := 0;
    } else {
      var k := AnyContainedWitness(w, delivery[1..]);
      j := k + 1;
      assert delivery[1..][k] == delivery[j];
    }
  }
}
