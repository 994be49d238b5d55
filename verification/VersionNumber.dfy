/**
 Version numbers of up to four fields. Comparing pads with zeros, incrementing carries, and both are arithmetic on
 one number; parsing undoes printing except where a field is too large to be read back.
 */
module VersionNumber {
  import Bytes

  const FIELD_LIMIT: nat := 0x1_0000_0000

  const FIELD_MAX: nat := 0xFFFF_FFFF

  const MAX_FIELDS: nat := 4

  type Field = x: nat | x < FIELD_LIMIT

  /** A version: the number of fields it was given, and the fields padded with zeros. */
  datatype Version = Version(count: nat, fields: seq<Field>)

  predicate IsVersion(v: Version) {
    && 1 <= v.count <= MAX_FIELDS
    && |v.fields| == MAX_FIELDS
    && forall i :: v.count <= i < MAX_FIELDS ==> v.fields[i] == 0
  }

  // ----- versions as numbers ----------------------------------------------

  function RankOf(f: seq<Field>): nat
    requires |f| == MAX_FIELDS
  {
    ((f[0] * FIELD_LIMIT + f[1]) * FIELD_LIMIT + f[2]) * FIELD_LIMIT + f[3]
  }

  /** The version as one number of four digits, most significant first. */
  function Rank(v: Version): nat
    requires IsVersion(v)
  {
    RankOf(v.fields)
  }

  /** What one step in the i-th field from the front is worth. */
  function Unit(count: nat): nat
    requires 1 <= count <= MAX_FIELDS
  {
    if count == 1 then FIELD_LIMIT * FIELD_LIMIT * FIELD_LIMIT
    else if count == 2 then FIELD_LIMIT * FIELD_LIMIT
    else if count == 3 then FIELD_LIMIT
    else 1
  }

  const RANK_LIMIT: nat := FIELD_LIMIT * FIELD_LIMIT * FIELD_LIMIT * FIELD_LIMIT

  lemma RankBound(f: seq<Field>)
    requires |f| == MAX_FIELDS
    ensures RankOf(f) < RANK_LIMIT
  {
  }

  /** The first difference decides, and without one the numbers are the same. */
  lemma FirstDifferenceDecides(a: seq<Field>, b: seq<Field>, i: nat)
    requires |a| == |b| == MAX_FIELDS && i <= MAX_FIELDS
    requires forall j :: 0 <= j < i ==> a[j] == b[j]
    ensures i < MAX_FIELDS && a[i] < b[i] ==> RankOf(a) < RankOf(b)
    ensures i < MAX_FIELDS && a[i] > b[i] ==> RankOf(a) > RankOf(b)
    ensures i == MAX_FIELDS ==> RankOf(a) == RankOf(b)
  {
  }

  /** The number determines the fields, so versions compare equal exactly when they differ in trailing zeros only. */
  lemma SameRankSameFields(a: seq<Field>, b: seq<Field>)
    requires |a| == |b| == MAX_FIELDS
    ensures RankOf(a) == RankOf(b) <==> a == b
  {
    if a != b {
      var i := if a[0] != b[0] then 0 else if a[1] != b[1] then 1 else if a[2] != b[2] then 2 else 3;
      assert a[i] != b[i];
      FirstDifferenceDecides(a, b, i);
    }
  }

  /** The fields come earlier in the order of the dictionary. */
  ghost predicate Before(a: seq<Field>, b: seq<Field>) {
    exists i :: 0 <= i < |a| && i < |b| && a[..i] == b[..i] && a[i] < b[i]
  }

  lemma RankIsOrder(a: seq<Field>, b: seq<Field>)
    requires |a| == |b| == 4
    ensures RankOf(a) < RankOf(b) <==> Before(a, b)
    ensures RankOf(a) == RankOf(b) <==> a == b
  {
    hide RankOf;
    SameRankSameFields(a, b);
    if a != b {
      var i := if a[0] != b[0] then 0 else if a[1] != b[1] then 1 else if a[2] != b[2] then 2 else 3;
      assert a[..i] == b[..i] && a[i] != b[i];
      FirstDifferenceDecides(a, b, i);
      if j :| 0 <= j < 4 && a[..j] == b[..j] && a[j] < b[j] {
        SamePrefix(a, b, i, j);
      }
    }
  }

  lemma SamePrefix(a: seq<Field>, b: seq<Field>, i: nat, j: nat)
    requires |a| == |b| && i < |a| && j < |a|
    requires a[..i] == b[..i] && a[i] != b[i] && a[..j] == b[..j] && a[j] != b[j]
    ensures i == j
  {
    assert forall k :: 0 <= k < i ==> a[k] == a[..i][k] && b[k] == b[..i][k];
    assert forall k :: 0 <= k < j ==> a[k] == a[..j][k] && b[k] == b[..j][k];
  }

  /** The first k fields agree exactly when the numbers agree after division by what one step is worth. */
  lemma PrefixIsQuotient(a: seq<Field>, b: seq<Field>, k: nat)
    requires |a| == |b| == MAX_FIELDS && 1 <= k <= MAX_FIELDS
    requires forall i :: k <= i < MAX_FIELDS ==> b[i] == 0
    ensures RankOf(b) <= RankOf(a) < RankOf(b) + Unit(k) <==> a[..k] == b[..k]
  {
    if a[0] != b[0] {
      RankApart(a, b, 0, k);
    } else if k > 1 && a[1] != b[1] {
      RankApart(a, b, 1, k);
    } else if k > 2 && a[2] != b[2] {
      RankApart(a, b, 2, k);
    } else if k > 3 && a[3] != b[3] {
      RankApart(a, b, 3, k);
    } else {
      assert a[..k] == b[..k];
    }
  }

  lemma RankApart(a: seq<Field>, b: seq<Field>, i: nat, k: nat)
    requires |a| == |b| == MAX_FIELDS && i < k <= MAX_FIELDS
    requires forall j :: 0 <= j < i ==> a[j] == b[j]
    requires forall i :: k <= i < MAX_FIELDS ==> b[i] == 0
    ensures a[i] > b[i] ==> RankOf(a) >= RankOf(b) + Unit(k)
    ensures a[i] < b[i] ==> RankOf(a) < RankOf(b)
    ensures a[i] != b[i] ==> a[..k] != b[..k]
  {
    assert a[..k][i] == a[i] && b[..k][i] == b[i];
  }

  class VersionNumber {
    var fieldsCount: nat

    const fields: array<Field>

    constructor (v: Version)
      requires IsVersion(v)
      ensures Valid() && Value() == v && fresh(fields)
    {
      fieldsCount := v.count;
      fields := new Field[MAX_FIELDS](i requires 0 <= i < MAX_FIELDS && |v.fields| == MAX_FIELDS => v.fields[i]);
      new;
      assert fields[..] == v.fields;
    }

    predicate Valid()
      reads this, fields
    {
      fields.Length == MAX_FIELDS && IsVersion(Version(fieldsCount, fields[..]))
    }

    function Value(): (v: Version)
      reads this, fields
      requires Valid()
      ensures IsVersion(v)
    {
      Version(fieldsCount, fields[..])
    }

    /** Adds one to the last field, with carry; the largest version of its length wraps to zero. */
    method Increment()
      requires Valid()
      modifies fields
      ensures Valid()
      ensures Rank(Value()) == (Rank(old(Value())) + Unit(fieldsCount)) % RANK_LIMIT
    {
      var i := fieldsCount;
      ghost var before := fields[..];
      while i > 0
        invariant 0 <= i <= fieldsCount
        invariant Carried(before, fields[..], i, fieldsCount)
      {
        if fields[i - 1] < FIELD_MAX {
          fields[i - 1] := fields[i - 1] + 1;
          CarryStops(before, fields[..], i, fieldsCount);
          return;
        } else {
          fields[i - 1] := 0;
        }
        i := i - 1;
      }
      CarryWraps(before, fields[..], fieldsCount);
    }
  }

  /** The fields from i on have overflowed, and those before are as they were. */
  predicate Carried(before: seq<Field>, after: seq<Field>, i: nat, count: nat) {
    && |before| == |after| == MAX_FIELDS && i <= count <= MAX_FIELDS
    && (forall j :: 0 <= j < i ==> after[j] == before[j])
    && (forall j :: i <= j < count ==> before[j] == FIELD_MAX && after[j] == 0)
    && (forall j :: count <= j < MAX_FIELDS ==> before[j] == 0 && after[j] == 0)
  }

  lemma CarryStops(before: seq<Field>, after: seq<Field>, i: nat, count: nat)
    requires 1 <= i && |after| == MAX_FIELDS && i <= count <= MAX_FIELDS
    requires after[i - 1] > 0 && Carried(before, after[i - 1 := after[i - 1] - 1], i, count)
    ensures RankOf(after) == (RankOf(before) + Unit(count)) % RANK_LIMIT
  {
    hide RankOf, Carried, Unit;
    RankBound(after);
    CarryAdds(before, after, i, count);
  }

  lemma CarryAdds(before: seq<Field>, after: seq<Field>, i: nat, count: nat)
    requires 1 <= i && |after| == MAX_FIELDS && i <= count <= MAX_FIELDS
    requires after[i - 1] > 0 && Carried(before, after[i - 1 := after[i - 1] - 1], i, count)
    ensures |before| == MAX_FIELDS && RankOf(after) == RankOf(before) + Unit(count)
  {
  }

  lemma CarryWraps(before: seq<Field>, after: seq<Field>, count: nat)
    requires 1 <= count && Carried(before, after, 0, count)
    ensures RankOf(after) == (RankOf(before) + Unit(count)) % RANK_LIMIT
    ensures RankOf(before) + Unit(count) == RANK_LIMIT
  {
  }

  // ----- comparing --------------------------------------------------------

  /** Compares field by field; fields that only one version has count when they are not zero. */
  method Compare(lhs: VersionNumber, rhs: VersionNumber) returns (r: int)
    requires lhs.Valid() && rhs.Valid()
    ensures r == if Rank(lhs.Value()) < Rank(rhs.Value()) then -1 else if Rank(lhs.Value()) > Rank(rhs.Value()) then 1 else 0
  {
    hide RankOf;
    ghost var l := lhs.Value().fields;
    ghost var r' := rhs.Value().fields;
    var n := if lhs.fieldsCount < rhs.fieldsCount then lhs.fieldsCount else rhs.fieldsCount;
    for fc := 0 to n
      invariant forall j :: 0 <= j < fc ==> lhs.fields[j] == rhs.fields[j]
    {
      FirstDifferenceDecides(l, r', fc);
      if lhs.fields[fc] < rhs.fields[fc] {
        return -1;
      } else if lhs.fields[fc] > rhs.fields[fc] {
        return 1;
      }
    }
    if lhs.fieldsCount > n {
      for fc := n to lhs.fieldsCount
        invariant forall j :: 0 <= j < fc ==> lhs.fields[j] == rhs.fields[j]
      {
        FirstDifferenceDecides(l, r', fc);
        if lhs.fields[fc] != 0 {
          return 1;
        }
      }
    } else if rhs.fieldsCount > n {
      for fc := n to rhs.fieldsCount
        invariant forall j :: 0 <= j < fc ==> lhs.fields[j] == rhs.fields[j]
      {
        FirstDifferenceDecides(l, r', fc);
        if rhs.fields[fc] != 0 {
          return -1;
        }
      }
    }
    FirstDifferenceDecides(l, r', MAX_FIELDS);
    r := 0;
  }

  // ----- printing and parsing ---------------------------------------------

  const SEGMENT_LIMIT: nat := 30

  predicate IsDigit(c: char) {
    '0' <= c <= '9'
  }

  predicate AllDigits(s: string) {
    forall i :: 0 <= i < |s| ==> IsDigit(s[i])
  }

  function Decimal(s: string): nat
    requires AllDigits(s)
  {
    if s == "" then 0 else 10 * Decimal(s[..|s| - 1]) + (s[|s| - 1] as int - '0' as int)
  }

  function DigitChar(d: nat): (c: char)
    requires d < 10
    ensures IsDigit(c) && c as int - '0' as int == d
  {
    ('0' as int + d) as char
  }

  function Print(n: nat): string {
    if n < 10 then [DigitChar(n)] else Print(n / 10) + [DigitChar(n % 10)]
  }

  /** No leading zero, and not too long for the buffer. */
  predicate GoodSegment(s: string) {
    1 <= |s| <= SEGMENT_LIMIT && AllDigits(s) && (|s| > 1 ==> s[0] != '0')
  }

  function Pow10(k: nat): nat {
    if k == 0 then 1 else 10 * Pow10(k - 1)
  }

  lemma {:induction false} PrintIsGood(n: nat, k: nat)
    requires n < Pow10(k) && 1 <= k <= SEGMENT_LIMIT
    ensures GoodSegment(Print(n)) && |Print(n)| <= k && Decimal(Print(n)) == n
    ensures Print(n)[0] == '0' ==> n == 0
  {
    var s := Print(n);
    if n >= 10 {
      assert k > 1;
      PrintIsGood(n / 10, k - 1);
      assert s[..|s| - 1] == Print(n / 10);
    } else {
      assert s[..0] == "";
    }
  }

  lemma FieldsPrint(n: Field)
    ensures GoodSegment(Print(n)) && Decimal(Print(n)) == n
  {
    assert Pow10(10) == 10 * 10 * 10 * 10 * 10 * 10 * 10 * 10 * 10 * 10;
    PrintIsGood(n, 10);
  }

  /** The pieces between dots; there is always at least one. */
  function Split(s: string): (pieces: seq<string>)
    ensures |pieces| >= 1
  {
    if s == "" then [""]
    else
      var before, c := Split(s[..|s| - 1]), s[|s| - 1];
      if c == '.' then before + [""] else before[|before| - 1 := before[|before| - 1] + [c]]
  }

  function Join(pieces: seq<string>): string
    requires |pieces| >= 1
  {
    if |pieces| == 1 then pieces[0] else Join(pieces[..|pieces| - 1]) + "." + pieces[|pieces| - 1]
  }

  lemma JoinLast(before: seq<string>, last: string)
    ensures Join(before + [last]) == if before == [] then last else Join(before) + "." + last
  {
    assert (before + [last])[..|before|] == before;
  }

  lemma SplitLast(s: string, c: char)
    ensures Split(s + [c]) ==
            var before := Split(s);
            if c == '.' then before + [""] else before[..|before| - 1] + [before[|before| - 1] + [c]]
  {
    assert (s + [c])[..|s|] == s;
  }

  lemma SplitNothing()
    ensures Split("") == [""]
  {
  }

  /** Splitting is the inverse of joining pieces that have no dots. */
  lemma {:induction false} SplitJoin(before: seq<string>, last: string)
    requires (forall p <- before :: '.' !in p) && '.' !in last
    ensures Split(Join(before + [last])) == before + [last]
    decreases |before|, |last|
  {
    hide Join, Split;
    JoinLast(before, last);
    if last != "" {
      var shorter, c := last[..|last| - 1], last[|last| - 1];
      assert last == shorter + [c] && c in last;
      SplitJoin(before, shorter);
      JoinLast(before, shorter);
      assert Join(before + [last]) == Join(before + [shorter]) + [c];
      SplitLast(Join(before + [shorter]), c);
    } else if before != [] {
      var n := |before| - 1;
      assert before == before[..n] + [before[n]];
      assert before[n] in before;
      SplitJoin(before[..n], before[n]);
      assert Join(before + [last]) == Join(before) + ['.'];
      SplitLast(Join(before), '.');
    } else {
      SplitNothing();
    }
  }

  lemma {:induction false} JoinSplit(s: string)
    ensures Join(Split(s)) == s && forall p <- Split(s) :: '.' !in p
  {
    hide Join, Split;
    if s == "" {
      SplitNothing();
      JoinOne("");
    } else {
      var shorter, c := s[..|s| - 1], s[|s| - 1];
      var before := Split(shorter);
      var n := |before| - 1;
      assert s == shorter + [c] && before == before[..n] + [before[n]] && before[n] in before;
      JoinSplit(shorter);
      SplitLast(shorter, c);
      if c == '.' {
        JoinLast(before, "");
      } else {
        JoinLast(before[..n], before[n]);
        JoinLast(before[..n], before[n] + [c]);
        assert Split(s) == before[..n] + [before[n] + [c]];
        forall p | p in Split(s)
          ensures '.' !in p
        {
          assert p in before || p == before[n] + [c];
        }
      }
    }
  }

  /** What parsing gives: the printed form of a number beyond 64 bits in the last field ends in an exception. */
  datatype Outcome = Parsed(version: Version) | Rejected(error: ParseError) | Throws

  datatype ParseError = TooManyFields | InvalidCharacter | TooLong | Empty

  /** A piece that is followed by a dot. */
  predicate Closed(piece: string) {
    GoodSegment(piece) && Decimal(piece) < FIELD_MAX
  }

  /** The pieces of an acceptable string: the last may be empty when a dot ends the string. */
  predicate Accepted(pieces: seq<string>)
    requires |pieces| >= 1
  {
    var n := |pieces| - 1;
    && (forall i :: 0 <= i < n ==> Closed(pieces[i]))
    && (pieces[n] == "" ==> 1 <= n <= MAX_FIELDS)
    && (pieces[n] != "" ==> n < MAX_FIELDS && GoodSegment(pieces[n]))
  }

  function FieldOf(piece: string): Field {
    if AllDigits(piece) then Decimal(piece) % FIELD_LIMIT else 0
  }

  /** The fields of an acceptable string. */
  predicate FieldsOf(pieces: seq<string>, v: Version)
    requires |pieces| >= 1 && Accepted(pieces)
  {
    var n := |pieces| - 1;
    && IsVersion(v)
    && v.count == (if pieces[n] == "" then n else n + 1)
    && forall i :: 0 <= i < v.count ==> v.fields[i] == FieldOf(pieces[i])
  }

  ghost predicate ParsesTo(s: string, r: Outcome) {
    var pieces := Split(s);
    var last := pieces[|pieces| - 1];
    if !Accepted(pieces) then r.Rejected? && (r.error == Empty <==> s == "")
    else if last != "" && Decimal(last) >= Bytes.TWO64 then r == Throws
    else r.Parsed? && FieldsOf(pieces, r.version)
  }

  /** The strings that are acceptable are those that can be put together from acceptable pieces without dots. */
  lemma AcceptedStrings(s: string)
    ensures Accepted(Split(s)) <==>
            exists pieces :: |pieces| >= 1 && (forall p <- pieces :: '.' !in p) && s == Join(pieces) && Accepted(pieces)
  {
    hide Accepted, Join, Split;
    JoinSplit(s);
    forall pieces | |pieces| >= 1 && (forall p <- pieces :: '.' !in p) && s == Join(pieces)
      ensures Split(s) == pieces
    {
      var n := |pieces| - 1;
      assert pieces == pieces[..n] + [pieces[n]] && pieces[n] in pieces;
      SplitJoin(pieces[..n], pieces[n]);
    }
  }

  /** The last field is read as it is written only below 2^32; beyond that it is taken modulo 2^32. */
  lemma LastFieldIsExact(s: string, v: Version)
    requires ParsesTo(s, Parsed(v)) && Split(s)[|Split(s)| - 1] != ""
    ensures AllDigits(Split(s)[|Split(s)| - 1])
    ensures v.fields[v.count - 1] == Decimal(Split(s)[|Split(s)| - 1])
            <==> Decimal(Split(s)[|Split(s)| - 1]) < FIELD_LIMIT
  {
    hide Decimal, Split;
  }

  /** For example "1.4294967296" is read as 1.0. */
  lemma LastFieldWraps()
    ensures ParsesTo("1.4294967296", Parsed(Version(2, [1, 0, 0, 0])))
  {
    hide Split, Join, Decimal;
    SplitJoin(["1"], "4294967296");
    JoinLast(["1"], "4294967296");
    JoinOne("1");
    assert "1" + "." + "4294967296" == "1.4294967296";
    assert Split("1.4294967296") == ["1", "4294967296"];
    TenDigits();
  }

  lemma JoinOne(s: string)
    ensures Join([s]) == s
  {
  }

  lemma DecimalStep(s: string, c: char)
    requires AllDigits(s) && IsDigit(c)
    ensures AllDigits(s + [c]) && Decimal(s + [c]) == 10 * Decimal(s) + (c as int - '0' as int)
  {
    assert (s + [c])[..|s|] == s;
  }

  lemma TenDigits()
    ensures AllDigits("1") && Decimal("1") == 1
    ensures AllDigits("4294967295") && Decimal("4294967295") == FIELD_MAX
    ensures AllDigits("4294967296") && Decimal("4294967296") == 0x1_0000_0000
  {
    hide Decimal;
    NoDigits();
    DecimalStep("", '1');
    assert "" + ['1'] == "1";
    DecimalStep("", '4');
    assert "" + ['4'] == "4";
    DecimalStep("4", '2');
    assert "4" + ['2'] == "42";
    DecimalStep("42", '9');
    assert "42" + ['9'] == "429";
    DecimalStep("429", '4');
    assert "429" + ['4'] == "4294";
    DecimalStep("4294", '9');
    assert "4294" + ['9'] == "42949";
    DecimalStep("42949", '6');
    assert "42949" + ['6'] == "429496";
    DecimalStep("429496", '7');
    assert "429496" + ['7'] == "4294967";
    DecimalStep("4294967", '2');
    assert "4294967" + ['2'] == "42949672";
    DecimalStep("42949672", '9');
    assert "42949672" + ['9'] == "429496729";
    DecimalStep("429496729", '6');
    assert "429496729" + ['6'] == "4294967296";
    DecimalStep("429496729", '5');
    assert "429496729" + ['5'] == "4294967295";
  }

  /** The largest field is accepted at the end. */
  lemma LargestFieldParses()
    ensures ParsesTo("4294967295", Parsed(Version(1, [FIELD_MAX, 0, 0, 0])))
  {
    hide Split, Join, Decimal;
    SplitJoin([], "4294967295");
    JoinLast([], "4294967295");
    assert Split("4294967295") == ["4294967295"];
    TenDigits();
  }

  lemma NoDigits()
    ensures AllDigits("") && Decimal("") == 0
  {
  }

  lemma ParseIsFunction(s: string, a: Outcome, b: Outcome)
    requires ParsesTo(s, a) && ParsesTo(s, b) && a.Parsed?
    ensures a == b
  {
    assert forall i :: 0 <= i < MAX_FIELDS ==> a.version.fields[i] == b.version.fields[i];
    assert a.version.fields == b.version.fields;
  }

  function ToString(v: Version): string
    requires IsVersion(v)
  {
    Join(Printed(v))
  }

  function Printed(v: Version): (pieces: seq<string>)
    requires IsVersion(v)
    ensures |pieces| == v.count
    ensures forall i :: 0 <= i < v.count ==> pieces[i] == Print(v.fields[i])
  {
    seq(v.count, i requires 0 <= i < v.count => Print(v.fields[i]))
  }

  /** A version is read back from its printed form exactly when no field but the last is the largest one. */
  lemma PrintThenParse(v: Version, r: Outcome)
    requires IsVersion(v) && ParsesTo(ToString(v), r)
    ensures r == Parsed(v) <==> forall i :: 0 <= i < v.count - 1 ==> v.fields[i] < FIELD_MAX
    ensures (exists i :: 0 <= i < v.count - 1 && v.fields[i] == FIELD_MAX) ==> r.Rejected?
  {
    hide Print, Join, Split, Decimal, GoodSegment;
    var pieces := Printed(v);
    forall i | 0 <= i < v.count
      ensures GoodSegment(pieces[i]) && AllDigits(pieces[i]) && '.' !in pieces[i] && pieces[i] != ""
      ensures Decimal(pieces[i]) == v.fields[i]
    {
      FieldsPrint(v.fields[i]);
      GoodHasNoDot(pieces[i]);
    }
    var n := v.count - 1;
    assert pieces == pieces[..n] + [pieces[n]];
    SplitJoin(pieces[..n], pieces[n]);
    if Accepted(pieces) {
      assert FieldsOf(pieces, v);
      ParseIsFunction(ToString(v), r, Parsed(v));
    }
  }

  lemma GoodHasNoDot(s: string)
    requires GoodSegment(s)
    ensures AllDigits(s) && '.' !in s && s != ""
  {
  }

  /** Pieces before the current one are final, and the current one can only grow. */
  lemma {:induction false} SplitPrefix(s: string, i: nat)
    requires i <= |s|
    ensures var part, all := Split(s[..i]), Split(s);
            var n := |part| - 1;
            n < |all| && part[..n] == all[..n] && part[n] <= all[n]
    decreases |s|
  {
    if i == |s| {
      assert s[..i] == s;
    } else {
      var shorter := s[..|s| - 1];
      assert s[..i] == shorter[..i];
      SplitPrefix(shorter, i);
    }
  }

  lemma SplitStep(s: string, i: nat)
    requires i < |s|
    ensures Split(s[..i + 1]) ==
            var before := Split(s[..i]);
            if s[i] == '.' then before + [""] else before[|before| - 1 := before[|before| - 1] + [s[i]]]
  {
    assert s[..i + 1][..i] == s[..i];
  }

  /** A closed piece that is not acceptable spoils the whole string. */
  lemma BadPiece(s: string, i: nat, k: nat)
    requires i <= |s| && k < |Split(s[..i])| - 1 && !Closed(Split(s[..i])[k])
    ensures !Accepted(Split(s))
  {
    SplitPrefix(s, i);
    var part := Split(s[..i]);
    assert part[k] == part[..|part| - 1][k];
    assert Split(s)[k] == Split(s)[..|part| - 1][k];
  }

  /** So does one that is too long or has a character that is not a digit, wherever it ends. */
  lemma BadStart(s: string, i: nat)
    requires i <= |s|
    requires var piece := Split(s[..i])[|Split(s[..i])| - 1]; |piece| > SEGMENT_LIMIT || !AllDigits(piece)
    ensures !Accepted(Split(s))
  {
    SplitPrefix(s, i);
    var part, all := Split(s[..i]), Split(s);
    var n := |part| - 1;
    assert !GoodSegment(all[n]) && all[n] != "";
  }

  lemma TooManyPieces(s: string, i: nat)
    requires i <= |s|
    requires |Split(s[..i])| > MAX_FIELDS + 1 || (|Split(s[..i])| == MAX_FIELDS + 1 && Split(s[..i])[MAX_FIELDS] != "")
    ensures !Accepted(Split(s))
  {
    SplitPrefix(s, i);
  }

  lemma {:induction false} NoPieces(s: string)
    ensures Split(s) == [""] <==> s == ""
  {
    if s != "" {
      var before, c := Split(s[..|s| - 1]), s[|s| - 1];
      assert c != '.' ==> Split(s)[|before| - 1] == before[|before| - 1] + [c];
    }
  }

  // ----- which error ------------------------------------------------------

  /** One to thirty digits without a leading zero, for a number below 2^32 - 1. */
  predicate CanBeClosed(piece: string) {
    && 1 <= |piece| <= 30 && AllDigits(piece)
    && (|piece| > 1 ==> piece[0] != '0') && Decimal(piece) < 0xFFFF_FFFF
  }

  function LastPiece(s: string): string {
    Split(s)[|Split(s)| - 1]
  }

  /** The first i characters are at most four closed pieces and up to thirty digits more. */
  ghost predicate ReadSoFar(s: string, i: nat) {
    && i <= |s| && |Split(s[..i])| <= 5
    && (forall j :: 0 <= j < |Split(s[..i])| - 1 ==> CanBeClosed(Split(s[..i])[j]))
    && AllDigits(LastPiece(s[..i])) && |LastPiece(s[..i])| <= 30
  }

  /** Reading stops after i characters, at the next one or at the end, with this error. */
  ghost predicate StopsAt(s: string, i: nat, e: ParseError) {
    && ReadSoFar(s, i)
    && var pieces, last := |Split(s[..i])|, LastPiece(s[..i]);
    if i == |s| then
      match e
      case Empty => s == ""
      case TooManyFields => pieces == 5 && last != ""
      case InvalidCharacter => pieces <= 4 && |last| > 1 && last[0] == '0'
      case TooLong => false
    else if s[i] == '.' then
      match e
      case TooManyFields => pieces == 5
      case InvalidCharacter => pieces <= 4 && !CanBeClosed(last)
      case Empty => false
      case TooLong => false
    else if '0' <= s[i] <= '9' then
      e == TooLong && |last| == 30
    else
      e == InvalidCharacter
  }

  ghost predicate Stops(s: string, i: nat) {
    exists e :: StopsAt(s, i, e)
  }

  /** Reading stops somewhere with this error. */
  ghost predicate HasError(s: string, e: ParseError) {
    exists i: nat :: StopsAt(s, i, e)
  }

  lemma IsReadSoFar(s: string, i: nat)
    requires i <= |s| && |Split(s[..i])| <= MAX_FIELDS + 1
    requires forall j :: 0 <= j < |Split(s[..i])| - 1 ==> Closed(Split(s[..i])[j])
    requires AllDigits(LastPiece(s[..i])) && |LastPiece(s[..i])| <= SEGMENT_LIMIT
    ensures ReadSoFar(s, i)
  {
    hide Decimal, Split;
  }

  /** What has been read so far was read before. */
  lemma {:induction false} ReadBefore(s: string, i: nat, j: nat)
    requires i <= j && ReadSoFar(s, j)
    ensures ReadSoFar(s, i)
    decreases j
  {
    hide Decimal, Split;
    if i < j {
      ReadOneLess(s, j);
      ReadBefore(s, i, j - 1);
    }
  }

  lemma ReadOneLess(s: string, j: nat)
    requires j > 0 && ReadSoFar(s, j)
    ensures ReadSoFar(s, j - 1)
    ensures !Stops(s, j - 1)
  {
    hide Decimal, Split;
    SplitStep(s, j - 1);
    var before, after := Split(s[..j - 1]), Split(s[..j]);
    var n := |before| - 1;
    if s[j - 1] == '.' {
      assert after[n] == before[n] == LastPiece(s[..j - 1]);
      assert forall k :: 0 <= k < n ==> before[k] == after[k];
    } else {
      assert after[n] == before[n] + [s[j - 1]] == LastPiece(s[..j]);
      assert after[n][|before[n]|] == s[j - 1];
      assert forall k :: 0 <= k < |before[n]| ==> before[n][k] == after[n][k];
      assert forall k :: 0 <= k < n ==> before[k] == after[k];
    }
  }

  /** A string has at most one error, at one place. */
  lemma StopsOnce(s: string, i: nat, e: ParseError, j: nat, e': ParseError)
    requires StopsAt(s, i, e) && StopsAt(s, j, e')
    ensures i == j && e == e'
  {
    hide Decimal, Split, ReadSoFar, CanBeClosed;
    assert Stops(s, i) && Stops(s, j);
    StopsAreRead(s, i, e);
    StopsAreRead(s, j, e');
    if i < j {
      ReadBefore(s, i + 1, j);
      ReadOneLess(s, i + 1);
    } else if j < i {
      ReadBefore(s, j + 1, i);
      ReadOneLess(s, j + 1);
    }
    if i == j {
      NoPieces(s[..i]);
      assert i == |s| ==> s[..i] == s;
    }
  }

  /** So the error is settled when it is found, ... */
  lemma Settled(s: string, i: nat, e: ParseError)
    requires StopsAt(s, i, e)
    ensures forall e' :: HasError(s, e') <==> e' == e
  {
    hide StopsAt;
    assert HasError(s, e);
    forall e' | HasError(s, e')
      ensures e' == e
    {
      var j: nat :| StopsAt(s, j, e');
      StopsOnce(s, i, e, j, e');
    }
  }

  /** ... and there is none in what has been read to the end. */
  lemma NoError(s: string)
    requires ReadSoFar(s, |s|) && !Stops(s, |s|)
    ensures forall e, i: nat :: !StopsAt(s, i, e)
  {
    hide StopsAt, ReadSoFar;
    forall e, i: nat
      ensures !StopsAt(s, i, e)
    {
      if StopsAt(s, i, e) {
        StopsAreRead(s, i, e);
        assert Stops(s, i);
        if i < |s| {
          ReadBefore(s, i + 1, |s|);
          ReadOneLess(s, i + 1);
        }
      }
    }
  }

  /** The end of an acceptable string. */
  lemma EndIsFine(s: string)
    requires ReadSoFar(s, |s|) && s != ""
    requires LastPiece(s) == "" || (|Split(s)| <= 4 && !(|LastPiece(s)| > 1 && LastPiece(s)[0] == '0'))
    ensures forall e, i: nat :: !StopsAt(s, i, e)
  {
    hide Split, ReadSoFar;
    assert s[..|s|] == s;
    assert !Stops(s, |s|);
    NoError(s);
  }

  lemma StopsAreRead(s: string, i: nat, e: ParseError)
    requires StopsAt(s, i, e)
    ensures ReadSoFar(s, i) && i <= |s|
  {
    hide Decimal, Split, CanBeClosed;
  }

  method FromString(s: string) returns (r: Outcome)
    ensures ParsesTo(s, r)
    ensures forall e :: r == Rejected(e) <==> HasError(s, e)
  {
    hide Split, Accepted, Decimal, FieldOf, GoodSegment, Closed, ReadSoFar;
    var fieldIndex := 0;
    var fields: seq<Field> := [0, 0, 0, 0];
    var segment := "";
    assert s[..0] == "";
    NoPieces("");
    for i := 0 to |s|
      invariant fieldIndex <= MAX_FIELDS && |fields| == MAX_FIELDS
      invariant Split(s[..i])[|Split(s[..i])| - 1] == segment && |Split(s[..i])| == fieldIndex + 1
      invariant |segment| <= SEGMENT_LIMIT && AllDigits(segment)
      invariant forall j :: 0 <= j < fieldIndex ==> Closed(Split(s[..i])[j]) && fields[j] == FieldOf(Split(s[..i])[j])
      invariant forall j :: fieldIndex <= j < MAX_FIELDS ==> fields[j] == 0
    {
      SplitStep(s, i);
      IsReadSoFar(s, i);
      var ch := s[i];
      if ch == '.' {
        if fieldIndex >= MAX_FIELDS {
          TooManyPieces(s, i + 1);
          Settled(s, i, TooManyFields);
          return Rejected(TooManyFields);
        }
        SegmentCheck(segment);
        if segment == "" || (|segment| > 1 && segment[0] == '0') || Decimal(segment) >= FIELD_MAX {
          BadPiece(s, i + 1, fieldIndex);
          Settled(s, i, InvalidCharacter);
          return Rejected(InvalidCharacter);
        }
        fields := fields[fieldIndex := Decimal(segment)];
        fieldIndex := fieldIndex + 1;
        segment := "";
      } else if IsDigit(ch) {
        if |segment| >= SEGMENT_LIMIT {
          BadStart(s, i + 1);
          Settled(s, i, TooLong);
          return Rejected(TooLong);
        }
        segment := segment + [ch];
      } else {
        assert (segment + [ch])[|segment|] == ch;
        BadStart(s, i + 1);
        Settled(s, i, InvalidCharacter);
        return Rejected(InvalidCharacter);
      }
    }
    assert s[..|s|] == s;
    NoPieces(s);
    IsReadSoFar(s, |s|);
    if segment != "" {
      if fieldIndex >= MAX_FIELDS {
        TooManyPieces(s, |s|);
        Settled(s, |s|, TooManyFields);
        return Rejected(TooManyFields);
      }
      SegmentCheck(segment);
      if |segment| > 1 && segment[0] == '0' {
        NotAccepted(Split(s));
        Settled(s, |s|, InvalidCharacter);
        return Rejected(InvalidCharacter);
      }
      GoodEnd(Split(s));
      EndIsFine(s);
      if Decimal(segment) >= Bytes.TWO64 {
        return Throws;
      }
      fields := fields[fieldIndex := Decimal(segment) % FIELD_LIMIT];
      fieldIndex := fieldIndex + 1;
    } else if fieldIndex > 0 {
      GoodEnd(Split(s));
      EndIsFine(s);
    }
    if fieldIndex == 0 {
      assert Split(s) == [""];
      SegmentCheck("");
      NotAccepted([""]);
      Settled(s, |s|, Empty);
      return Rejected(Empty);
    }
    r := Parsed(Version(fieldIndex, fields));
  }

  lemma SegmentCheck(segment: string)
    requires AllDigits(segment) && |segment| <= SEGMENT_LIMIT
    ensures GoodSegment(segment) <==> segment != "" && !(|segment| > 1 && segment[0] == '0')
    ensures Closed(segment) <==> GoodSegment(segment) && Decimal(segment) < FIELD_MAX
    ensures Decimal(segment) < FIELD_MAX ==> FieldOf(segment) == Decimal(segment)
    ensures FieldOf(segment) == Decimal(segment) % FIELD_LIMIT
  {
    hide Decimal;
  }

  lemma NotAccepted(pieces: seq<string>)
    requires |pieces| >= 1
    requires !GoodSegment(pieces[|pieces| - 1])
    requires pieces[|pieces| - 1] == "" ==> |pieces| == 1
    ensures !Accepted(pieces)
  {
  }

  lemma GoodEnd(pieces: seq<string>)
    requires 1 <= |pieces| && forall j :: 0 <= j < |pieces| - 1 ==> Closed(pieces[j])
    requires var last := pieces[|pieces| - 1];
             if last == "" then 1 < |pieces| <= MAX_FIELDS + 1 else GoodSegment(last) && |pieces| <= MAX_FIELDS
    ensures Accepted(pieces)
    ensures forall j :: 0 <= j < |pieces| ==> AllDigits(pieces[j])
  {
  }
}
