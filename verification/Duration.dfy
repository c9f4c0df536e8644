/** Durations in milliseconds or nanoseconds or infinite, their order and their printed form. */
module Duration {
  import opened Sequences
  import opened Options
  import opened Arithmetic
  import opened Digits

  // A finite duration is never negative.
  datatype Duration = Millis(millis: nat) | Nanos(nanos: nat) | Infinity

  // A JavaScript number without a fractional part.
  datatype Number = Finite(n: int) | PositiveInfinity | NegativeInfinity | NaN

  function FromNumber(input: Number): Duration {
    match input
    case NaN => Millis(0)
    case NegativeInfinity => Millis(0)
    case PositiveInfinity => Infinity
    case Finite(n) => if n < 0 then Millis(0) else Millis(n)
  }

  function FromBigInt(input: int): Duration {
    if input < 0 then Millis(0) else Nanos(input)
  }

  // None is the error for an infinite duration.
  function UnsafeToNanos(d: Duration): Option<nat> {
    match d
    case Infinity => None
    case Nanos(nanos) => Some(nanos)
    case Millis(millis) => Some(millis * 1000000)
  }

  // ---------------------------------------------------------------------------
  // Order and equivalence

  datatype Extended = Real(x: real) | Unbounded

  function ToMillis(d: Duration): Extended {
    match d
    case Infinity => Unbounded
    case Nanos(nanos) => Real(nanos as real / 1000000.0)
    case Millis(millis) => Real(millis as real)
  }

  predicate Below(a: Extended, b: Extended) {
    a.Real? && (b.Unbounded? || a.x < b.x)
  }

  function MatchWith<T>(self: Duration, that: Duration,
                        onMillis: (Extended, Extended) -> T, onNanos: (int, int) -> T): T {
    if self.Infinity? || that.Infinity? then onMillis(ToMillis(self), ToMillis(that))
    else if self.Nanos? || that.Nanos? then onNanos(UnsafeToNanos(self).value, UnsafeToNanos(that).value)
    else onMillis(ToMillis(self), ToMillis(that))
  }

  function Order(self: Duration, that: Duration): int {
    MatchWith(self, that,
      (x: Extended, y: Extended) => if Below(x, y) then -1 else if Below(y, x) then 1 else 0,
      (x: int, y: int) => if x < y then -1 else if x > y then 1 else 0)
  }

  predicate Equivalence(self: Duration, that: Duration) {
    MatchWith(self, that, (x: Extended, y: Extended) => x == y, (x: int, y: int) => x == y)
  }

  // Across all forms durations compare by their nanoseconds, infinity above everything finite.
  lemma OrderByNanos(a: Duration, b: Duration)
    ensures Equivalence(a, b) <==> UnsafeToNanos(a) == UnsafeToNanos(b)
    ensures Order(a, b) ==
      match (UnsafeToNanos(a), UnsafeToNanos(b))
      case (Some(x), Some(y)) => if x < y then -1 else if x > y then 1 else 0
      case (Some(_), None) => -1
      case (None, Some(_)) => 1
      case (None, None) => 0
  {
  }

  // Milliseconds and as many million nanoseconds make equivalent durations, negative ones zero.
  lemma MakeAgrees(n: int)
    ensures Equivalence(FromNumber(Finite(n)), FromBigInt(n * 1000000))
    ensures n <= 0 ==> Equivalence(FromNumber(Finite(n)), Millis(0))
    ensures UnsafeToNanos(FromBigInt(n)) == Some(Max(0, n))
    ensures FromNumber(PositiveInfinity) == Infinity
    ensures FromNumber(NaN) == FromNumber(NegativeInfinity) == Millis(0)
  {
  }

  // ---------------------------------------------------------------------------
  // Printing

  datatype Part = Part(count: nat, suffix: string)

  function Weight(suffix: string): nat {
    match suffix
    case "ns" => 1
    case "ms" => 1000000
    case "s" => 1000000000
    case "m" => 60000000000
    case "h" => 3600000000000
    case "d" => 86400000000000
    case _ => 0
  }

  // How many of a unit make one of the next, days being unlimited.
  function Radix(suffix: string): Option<nat> {
    match suffix
    case "ns" => Some(1000000)
    case "ms" => Some(1000)
    case "s" => Some(60)
    case "m" => Some(60)
    case "h" => Some(24)
    case _ => None
  }

  predicate IsPart(part: Part) {
    && part.suffix in ["ns", "ms", "s", "m", "h", "d"]
    && part.count > 0
    && (Radix(part.suffix).Some? ==> part.count < Radix(part.suffix).value)
  }

  function Total(parts: seq<Part>): nat {
    if parts == [] then 0 else parts[0].count * Weight(parts[0].suffix) + Total(parts[1..])
  }

  function Present(count: nat, suffix: string): seq<Part> {
    if count != 0 then [Part(count, suffix)] else []
  }

  // The non-zero parts from days down to nanoseconds.
  function Parts(nanos: nat): seq<Part> {
    var ms := nanos / 1000000;
    var sec := ms / 1000;
    var min := sec / 60;
    var hr := min / 60;
    Present(hr / 24, "d") + Present(hr % 24, "h") + Present(min % 60, "m") + Present(sec % 60, "s")
    + Present(ms % 1000, "ms") + Present(nanos % 1000000, "ns")
  }

  function Render(part: Part): string {
    Print(part.count) + part.suffix
  }

  function Join(parts: seq<Part>): string {
    if parts == [] then ""
    else if |parts| == 1 then Render(parts[0])
    else Render(parts[0]) + " " + Join(parts[1..])
  }

  function Format(d: Duration): string {
    if d.Infinity? then "Infinity" else Join(Parts(UnsafeToNanos(d).value))
  }

  lemma {:induction false} TotalConcat(a: seq<Part>, b: seq<Part>)
    ensures Total(a + b) == Total(a) + Total(b)
  {
    if a == [] {
      assert a + b == b;
    } else {
      TotalConcat(a[1..], b);
      assert (a + b)[1..] == a[1..] + b;
    }
  }

  lemma PresentTotal(count: nat, suffix: string)
    ensures Total(Present(count, suffix)) == count * Weight(suffix)
  {
  }

  lemma TotalOfSix(a: seq<Part>, b: seq<Part>, c: seq<Part>, d: seq<Part>, e: seq<Part>, f: seq<Part>)
    ensures Total(a + b + c + d + e + f) == Total(a) + Total(b) + Total(c) + Total(d) + Total(e) + Total(f)
  {
    TotalConcat(a, b);
    TotalConcat(a + b, c);
    TotalConcat(a + b + c, d);
    TotalConcat(a + b + c + d, e);
    TotalConcat(a + b + c + d + e, f);
  }

  lemma PresentIsPart(count: nat, suffix: string)
    requires count > 0 ==> IsPart(Part(count, suffix))
    ensures forall part :: part in Present(count, suffix) ==> IsPart(part)
  {
  }

  lemma PartsAreParts(nanos: nat)
    ensures forall part :: part in Parts(nanos) ==> IsPart(part)
  {
    var ms := nanos / 1000000;
    var sec := ms / 1000;
    var min := sec / 60;
    var hr := min / 60;
    PresentIsPart(hr / 24, "d");
    PresentIsPart(hr % 24, "h");
    PresentIsPart(min % 60, "m");
    PresentIsPart(sec % 60, "s");
    PresentIsPart(ms % 1000, "ms");
    PresentIsPart(nanos % 1000000, "ns");
    hide IsPart, Present;
  }

  lemma PartsFromTheLeft(nanos: nat)
    ensures var ms := nanos / 1000000; var sec := ms / 1000; var min := sec / 60; var hr := min / 60;
      Parts(nanos) == Present(hr / 24, "d") + Present(hr % 24, "h") + Present(min % 60, "m") + Present(sec % 60, "s")
        + Present(ms % 1000, "ms") + Present(nanos % 1000000, "ns")
  {
  }

  // The parts add up to the exact number of nanoseconds, each below its radix.
  lemma PartsRecompose(nanos: nat)
    ensures Total(Parts(nanos)) == nanos
    ensures forall part :: part in Parts(nanos) ==> IsPart(part)
  {
    PartsAreParts(nanos);
    PartsFromTheLeft(nanos);
    hide Total, Present, Parts;
    var ms := nanos / 1000000;
    var sec := ms / 1000;
    var min := sec / 60;
    var hr := min / 60;
    TotalOfSix(Present(hr / 24, "d"), Present(hr % 24, "h"), Present(min % 60, "m"),
               Present(sec % 60, "s"), Present(ms % 1000, "ms"), Present(nanos % 1000000, "ns"));
    PresentTotal(hr / 24, "d");
    PresentTotal(hr % 24, "h");
    PresentTotal(min % 60, "m");
    PresentTotal(sec % 60, "s");
    PresentTotal(ms % 1000, "ms");
    PresentTotal(nanos % 1000000, "ns");
  }

  // From larger units to smaller ones.
  predicate Descending(parts: seq<Part>) {
    forall i, j :: 0 <= i < j < |parts| ==> Weight(parts[i].suffix) > Weight(parts[j].suffix)
  }

  lemma DescendingConcat(a: seq<Part>, b: seq<Part>, weight: nat)
    requires Descending(a) && (forall part :: part in a ==> Weight(part.suffix) >= weight)
    requires Descending(b) && (forall part :: part in b ==> Weight(part.suffix) < weight)
    ensures Descending(a + b)
  {
    forall i, j | 0 <= i < j < |a + b|
      ensures Weight((a + b)[i].suffix) > Weight((a + b)[j].suffix)
    {
      if i < |a| <= j {
        assert a[i] in a && b[j - |a|] in b;
      }
    }
  }

  lemma Prepend(count: nat, suffix: string, rest: seq<Part>)
    requires Descending(rest) && forall part :: part in rest ==> Weight(part.suffix) < Weight(suffix)
    ensures Descending(Present(count, suffix) + rest)
    ensures forall part :: part in Present(count, suffix) + rest ==> Weight(part.suffix) <= Weight(suffix)
  {
    if count != 0 {
      DescendingConcat([Part(count, suffix)], rest, Weight(suffix));
    } else {
      assert Present(count, suffix) + rest == rest;
    }
  }

  lemma Weights()
    ensures 0 < Weight("ns") < Weight("ms") < Weight("s") < Weight("m") < Weight("h") < Weight("d")
  {
  }

  lemma PartsDescend(nanos: nat)
    ensures Descending(Parts(nanos))
  {
    PartsFromTheRight(nanos);
    Weights();
    hide Weight, Present, Parts, Descending;
    var ms := nanos / 1000000;
    var sec := ms / 1000;
    var min := sec / 60;
    var hr := min / 60;
    NothingDescends();
    Prepend(nanos % 1000000, "ns", []);
    var ns := Present(nanos % 1000000, "ns") + [];
    Prepend(ms % 1000, "ms", ns);
    var mss := Present(ms % 1000, "ms") + ns;
    Prepend(sec % 60, "s", mss);
    var s := Present(sec % 60, "s") + mss;
    Prepend(min % 60, "m", s);
    var m := Present(min % 60, "m") + s;
    Prepend(hr % 24, "h", m);
    var h := Present(hr % 24, "h") + m;
    Prepend(hr / 24, "d", h);
  }

  lemma NothingDescends()
    ensures Descending([])
  {
  }

  // All parts in their range, larger units first: there is one way to write a number so.
  ghost predicate IsWritten(parts: seq<Part>) {
    Descending(parts) && forall part :: part in parts ==> IsPart(part)
  }

  lemma WrittenTail(parts: seq<Part>)
    requires IsWritten(parts) && parts != []
    ensures IsPart(parts[0]) && IsWritten(parts[1..])
    ensures forall part :: part in parts[1..] ==> Weight(part.suffix) < Weight(parts[0].suffix)
    ensures Total(parts) == parts[0].count * Weight(parts[0].suffix) + Total(parts[1..])
  {
    var tail := parts[1..];
    forall i, j | 0 <= i < j < |tail|
      ensures Weight(tail[i].suffix) > Weight(tail[j].suffix)
    {
      assert tail[i] == parts[i + 1] && tail[j] == parts[j + 1];
    }
  }

  // What one part of a unit can amount to, together with all smaller units, is less than the next.
  lemma PartBelowNext(part: Part, weight: nat)
    requires IsPart(part) && Weight(part.suffix) < weight && weight in UnitWeights()
    ensures (part.count + 1) * Weight(part.suffix) <= weight
  {
    MulMonotone(Weight(part.suffix), part.count + 1, Radix(part.suffix).value);
  }

  function UnitWeights(): seq<nat> {
    [1, 1000000, 1000000000, 60000000000, 3600000000000, 86400000000000]
  }

  lemma {:induction false} TailBelow(parts: seq<Part>, weight: nat)
    requires IsWritten(parts) && weight in UnitWeights()
    requires forall part :: part in parts ==> Weight(part.suffix) < weight
    ensures Total(parts) < weight
  {
    if parts != [] {
      WrittenTail(parts);
      PartWeight(parts[0]);
      TailBelow(parts[1..], Weight(parts[0].suffix));
      PartBelowNext(parts[0], weight);
      MulStep(Weight(parts[0].suffix), parts[0].count);
    }
  }

  lemma PartWeight(part: Part)
    requires IsPart(part)
    ensures Weight(part.suffix) in UnitWeights() && Weight(part.suffix) > 0
  {
  }

  lemma SameWeight(a: Part, b: Part)
    requires IsPart(a) && IsPart(b) && Weight(a.suffix) == Weight(b.suffix)
    ensures a.suffix == b.suffix
  {
  }

  lemma HeavierIsMore(a: seq<Part>, b: seq<Part>)
    requires IsWritten(a) && IsWritten(b) && a != []
    requires b == [] || Weight(b[0].suffix) < Weight(a[0].suffix)
    ensures Total(b) < Total(a)
  {
    hide Weight, IsWritten, IsPart, Total, UnitWeights;
    WrittenTail(a);
    PartWeight(a[0]);
    BelowHead(b, Weight(a[0].suffix));
    MulMonotone(Weight(a[0].suffix), 1, a[0].count);
    TailBelow(b, Weight(a[0].suffix));
  }

  lemma BelowHead(parts: seq<Part>, weight: nat)
    requires IsWritten(parts) && (parts != [] ==> Weight(parts[0].suffix) < weight)
    ensures forall part :: part in parts ==> Weight(part.suffix) < weight
  {
    hide Weight;
    forall part | part in parts
      ensures Weight(part.suffix) < weight
    {
      var i :| 0 <= i < |parts| && parts[i] == part;
    }
  }

  lemma {:induction false} WrittenIsUnique(a: seq<Part>, b: seq<Part>)
    requires IsWritten(a) && IsWritten(b) && Total(a) == Total(b)
    ensures a == b
    decreases |a|
  {
    hide Weight, IsWritten, IsPart, UnitWeights;
    if a == [] || b == [] || Weight(a[0].suffix) != Weight(b[0].suffix) {
      if a != [] && (b == [] || Weight(b[0].suffix) < Weight(a[0].suffix)) {
        HeavierIsMore(a, b);
      } else if b != [] {
        HeavierIsMore(b, a);
      }
    } else {
      WrittenTail(a);
      WrittenTail(b);
      var w := Weight(a[0].suffix);
      PartWeight(a[0]);
      TailBelow(a[1..], w);
      TailBelow(b[1..], w);
      DivUnique(Total(a), w, a[0].count, Total(a[1..]));
      DivUnique(Total(a), w, b[0].count, Total(b[1..]));
      SameWeight(a[0], b[0]);
      WrittenIsUnique(a[1..], b[1..]);
      assert a == [a[0]] + a[1..] && b == [b[0]] + b[1..];
    }
  }

  // So the parts printed are the only ones in range, from larger to smaller units, that add up.
  lemma PartsAreUnique(nanos: nat, parts: seq<Part>)
    ensures parts == Parts(nanos) <==> IsWritten(parts) && Total(parts) == nanos
  {
    PartsRecompose(nanos);
    PartsDescend(nanos);
    if IsWritten(parts) && Total(parts) == nanos {
      WrittenIsUnique(parts, Parts(nanos));
    }
  }

  lemma {:induction false} JoinConcat(a: seq<Part>, b: seq<Part>)
    requires a != [] && b != []
    ensures Join(a + b) == Join(a) + " " + Join(b)
  {
    if |a| == 1 {
      assert (a + b)[1..] == b;
    } else {
      assert (a + b)[1..] == a[1..] + b;
      JoinConcat(a[1..], b);
    }
  }

  // Parts are separated by single spaces, each its decimal digits and its unit.
  lemma JoinMeans(a: seq<Part>, b: seq<Part>, part: Part)
    ensures Join([]) == "" && Join([part]) == Print(part.count) + part.suffix
    ensures a != [] && b != [] ==> Join(a + b) == Join(a) + " " + Join(b)
  {
    if a != [] && b != [] {
      JoinConcat(a, b);
    }
  }

  // The parts of a number given in the mixed radix.
  lemma PartsOf(d: nat, h: nat, m: nat, s: nat, ms: nat, ns: nat)
    requires h < 24 && m < 60 && s < 60 && ms < 1000 && ns < 1000000
    ensures Parts((((((d * 24 + h) * 60 + m) * 60 + s) * 1000 + ms) * 1000000) + ns) ==
      Present(d, "d") + Present(h, "h") + Present(m, "m") + Present(s, "s") + Present(ms, "ms") + Present(ns, "ns")
  {
    var hours := d * 24 + h;
    var minutes := hours * 60 + m;
    var seconds := minutes * 60 + s;
    var millis := seconds * 1000 + ms;
    PartsFromTheLeft(millis * 1000000 + ns);
    hide Parts, Present;
    DivUnique(millis * 1000000 + ns, 1000000, millis, ns);
    DivUnique(millis, 1000, seconds, ms);
    DivUnique(seconds, 60, minutes, s);
    DivUnique(minutes, 60, hours, m);
    DivUnique(hours, 24, d, h);
  }

  lemma OneDigit(n: nat)
    requires n < 10
    ensures Print(n) == ["0123456789"[n]]
  {
    assert "0123456789"[n] == ('0' as int + n) as char;
  }

  lemma FormatExamples()
    ensures Format(Infinity) == "Infinity"
    ensures Format(Millis(1000)) == "1s" && Format(Millis(1001)) == "1s 1ms"
    ensures Format(Millis(93600000)) == "1d 2h" && Format(Millis(184000)) == "3m 4s"
    ensures Format(Nanos(5000006)) == "5ms 6ns"
  {
    hide Parts, Join;
    ExampleParts();
    ExampleTexts();
  }

  lemma ExampleParts()
    ensures Parts(1000000000) == [Part(1, "s")] && Parts(1001000000) == [Part(1, "s"), Part(1, "ms")]
    ensures Parts(93600000000000) == [Part(1, "d"), Part(2, "h")]
    ensures Parts(184000000000) == [Part(3, "m"), Part(4, "s")]
    ensures Parts(5000006) == [Part(5, "ms"), Part(6, "ns")]
  {
    hide Parts;
    PartsOf(0, 0, 0, 1, 0, 0);
    PartsOf(0, 0, 0, 1, 1, 0);
    PartsOf(1, 2, 0, 0, 0, 0);
    PartsOf(0, 0, 3, 4, 0, 0);
    PartsOf(0, 0, 0, 0, 5, 6);
  }

  lemma ExampleTexts()
    ensures Join([Part(1, "s")]) == "1s" && Join([Part(1, "s"), Part(1, "ms")]) == "1s 1ms"
    ensures Join([Part(1, "d"), Part(2, "h")]) == "1d 2h"
    ensures Join([Part(3, "m"), Part(4, "s")]) == "3m 4s"
    ensures Join([Part(5, "ms"), Part(6, "ns")]) == "5ms 6ns"
  {
    OneDigits();
    hide Print;
    JoinOfTwo(Part(1, "s"), Part(1, "ms"));
    JoinOfTwo(Part(1, "d"), Part(2, "h"));
    JoinOfTwo(Part(3, "m"), Part(4, "s"));
    JoinOfTwo(Part(5, "ms"), Part(6, "ns"));
  }

  lemma JoinOfTwo(a: Part, b: Part)
    ensures Join([a, b]) == Print(a.count) + a.suffix + " " + Print(b.count) + b.suffix
  {
    JoinMeans([a], [b], a);
    JoinMeans([], [], b);
    assert [a] + [b] == [a, b];
  }

  lemma OneDigits()
    ensures Print(1) == "1" && Print(2) == "2" && Print(3) == "3"
    ensures Print(4) == "4" && Print(5) == "5" && Print(6) == "6"
  {
    OneDigit(1);
    OneDigit(2);
    OneDigit(3);
    OneDigit(4);
    OneDigit(5);
    OneDigit(6);
  }

  predicate NoSpace(s: string) {
    forall i :: 0 <= i < |s| ==> s[i] != ' '
  }

  lemma RenderHasNoSpace(part: Part)
    requires IsPart(part)
    ensures NoSpace(Render(part)) && Render(part) != "" && IsDigit(Render(part)[0])
  {
  }

  lemma RenderInjective(a: Part, b: Part)
    requires IsPart(a) && IsPart(b) && Render(a) == Render(b)
    ensures a == b
  {
    var s, p, q := Render(a), Print(a.count), Print(b.count);
    assert !IsDigit(a.suffix[0]) && !IsDigit(b.suffix[0]);
    assert s[|p|] == a.suffix[0] && s[|q|] == b.suffix[0];
    assert forall i :: 0 <= i < |p| ==> IsDigit(s[i]);
    assert forall i :: 0 <= i < |q| ==> IsDigit(s[i]);
    assert s[..|p|] == p && s[..|q|] == q && s[|p|..] == a.suffix && s[|q|..] == b.suffix;
    PrintInjective(a.count, b.count);
  }

  lemma SplitAtSpace(x: string, s: string, y: string, t: string)
    requires NoSpace(x) && NoSpace(y) && x + " " + s == y + " " + t
    ensures x == y && s == t
  {
    var whole := x + " " + s;
    assert whole[|x|] == ' ' && whole[|y|] == ' ';
    assert forall i :: 0 <= i < |x| ==> whole[i] != ' ';
    assert forall i :: 0 <= i < |y| ==> whole[i] != ' ';
    assert whole[..|x|] == x && whole[..|y|] == y && whole[|x| + 1..] == s && whole[|y| + 1..] == t;
  }

  // A space shows more than one part.
  lemma JoinSpaces(parts: seq<Part>)
    requires forall part :: part in parts ==> IsPart(part)
    ensures |parts| > 1 <==> ' ' in Join(parts)
  {
    if parts != [] {
      RenderHasNoSpace(parts[0]);
    }
    if |parts| > 1 {
      assert Join(parts)[|Render(parts[0])|] == ' ';
    }
  }

  // Anything printed shows at least one part, and starts with a digit.
  lemma JoinStartsWithDigit(parts: seq<Part>)
    requires forall part :: part in parts ==> IsPart(part)
    ensures Join(parts) == "" <==> parts == []
    ensures parts != [] ==> IsDigit(Join(parts)[0])
  {
    if parts != [] {
      RenderHasNoSpace(parts[0]);
    }
  }

  lemma {:induction false} JoinInjective(a: seq<Part>, b: seq<Part>)
    requires forall part :: part in a || part in b ==> IsPart(part)
    requires Join(a) == Join(b)
    ensures a == b
    decreases |a|
  {
    JoinSpaces(a);
    JoinSpaces(b);
    JoinStartsWithDigit(a);
    JoinStartsWithDigit(b);
    if |a| > 1 && |b| > 1 {
      RenderHasNoSpace(a[0]);
      RenderHasNoSpace(b[0]);
      SplitAtSpace(Render(a[0]), Join(a[1..]), Render(b[0]), Join(b[1..]));
      RenderInjective(a[0], b[0]);
      JoinInjective(a[1..], b[1..]);
      assert a == [a[0]] + a[1..] && b == [b[0]] + b[1..];
    } else if |a| == 1 && |b| == 1 {
      RenderInjective(a[0], b[0]);
    }
  }

  // Two durations print alike exactly when they are equivalent.
  lemma FormatIsFaithful(a: Duration, b: Duration)
    ensures Format(a) == Format(b) <==> Equivalence(a, b)
  {
    OrderByNanos(a, b);
    if a.Infinity? != b.Infinity? {
      var nanos := UnsafeToNanos(if a.Infinity? then b else a).value;
      PartsRecompose(nanos);
      JoinStartsWithDigit(Parts(nanos));
    } else if !a.Infinity? && Format(a) == Format(b) {
      var x, y := UnsafeToNanos(a).value, UnsafeToNanos(b).value;
      PartsRecompose(x);
      PartsRecompose(y);
      JoinInjective(Parts(x), Parts(y));
    }
  }

  // ---------------------------------------------------------------------------

  function JoinStrings(parts: seq<string>): string {
    if parts == [] then ""
    else if |parts| == 1 then parts[0]
    else parts[0] + " " + JoinStrings(parts[1..])
  }

  ghost function Rendered(parts: seq<Part>): seq<string> {
    seq(|parts|, i requires 0 <= i < |parts| => Render(parts[i]))
  }

  lemma {:induction false} JoinRendered(parts: seq<Part>)
    ensures JoinStrings(Rendered(parts)) == Join(parts)
  {
    if |parts| > 1 {
      JoinRendered(parts[1..]);
      assert Rendered(parts)[1..] == Rendered(parts[1..]);
    }
  }

  lemma Pushed(parts: seq<string>, all: seq<Part>, count: nat, suffix: string)
    requires Reversed(parts) == Rendered(all)
    ensures Reversed(if count != 0 then parts + [Print(count) + suffix] else parts) ==
      Rendered(Present(count, suffix) + all)
  {
    if count != 0 {
      assert Reversed(parts + [Print(count) + suffix]) == [Print(count) + suffix] + Reversed(parts);
      assert Rendered([Part(count, suffix)] + all) == [Print(count) + suffix] + Rendered(all);
    } else {
      assert Present(count, suffix) + all == all;
    }
  }

  lemma PartsFromTheRight(nanos: nat)
    ensures var ms := nanos / 1000000; var sec := ms / 1000; var min := sec / 60; var hr := min / 60;
      Present(hr / 24, "d") + (Present(hr % 24, "h") + (Present(min % 60, "m") + (Present(sec % 60, "s")
      + (Present(ms % 1000, "ms") + (Present(nanos % 1000000, "ns") + []))))) == Parts(nanos)
  {
    hide Present;
  }

  // Pushes the parts from the smallest unit up, then reverses and joins them.
  method FormatDuration(duration: Duration) returns (s: string)
    ensures s == Format(duration)
  {
    var parts: seq<string> := [];
    if duration.Infinity? {
      return "Infinity";
    }
    var nanos := UnsafeToNanos(duration).value;
    PartsFromTheRight(nanos);
    hide Print, Present, Rendered, Reversed, Join, JoinStrings, Parts;
    ghost var all: seq<Part> := [];
    NothingPushed();

    Pushed(parts, all, nanos % 1000000, "ns");
    all := Present(nanos % 1000000, "ns") + all;
    if nanos % 1000000 != 0 {
      parts := parts + [Print(nanos % 1000000) + "ns"];
    }

    var ms := nanos / 1000000;
    Pushed(parts, all, ms % 1000, "ms");
    all := Present(ms % 1000, "ms") + all;
    if ms % 1000 != 0 {
      parts := parts + [Print(ms % 1000) + "ms"];
    }

    var sec := ms / 1000;
    Pushed(parts, all, sec % 60, "s");
    all := Present(sec % 60, "s") + all;
    if sec % 60 != 0 {
      parts := parts + [Print(sec % 60) + "s"];
    }

    var min := sec / 60;
    Pushed(parts, all, min % 60, "m");
    all := Present(min % 60, "m") + all;
    if min % 60 != 0 {
      parts := parts + [Print(min % 60) + "m"];
    }

    var hr := min / 60;
    Pushed(parts, all, hr % 24, "h");
    all := Present(hr % 24, "h") + all;
    if hr % 24 != 0 {
      parts := parts + [Print(hr % 24) + "h"];
    }

    var days := hr / 24;
    Pushed(parts, all, days, "d");
    all := Present(days, "d") + all;
    if days != 0 {
      parts := parts + [Print(days) + "d"];
    }

    JoinRendered(all);
    return JoinStrings(Reversed(parts));
  }

  lemma NothingPushed()
    ensures Reversed<string>([]) == Rendered([])
  {
  }
}
