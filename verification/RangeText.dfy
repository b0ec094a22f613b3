// Reading range tokens (parsePartial and parseComparator in internal/semver/range.go).
module RangeText {
  import opened Wrappers
  import opened Text
  import opened Decimal
  import opened Semver
  import opened VersionText
  import opened SemverRange

  predicate IsWildcard(s: string) {
    s == "" || s == "x" || s == "X" || s == "*"
  }

  // Reading stops at the first wildcard, with nothing recorded for it or for what follows.
  function ParseSegments(parts: seq<string>, pre: seq<string>): (r: Option<Partial>)
    requires parts != []
    ensures r.Some? ==> ValidPartial(r.value)
  {
    if |parts| > 3 then None
    else if IsWildcard(parts[0]) then Some(Partial(0, 0, 0, false, false, pre))
    else match ParseNumeric(parts[0])
      case None => None
      case Some(major) =>
        if |parts| == 1 || IsWildcard(parts[1]) then Some(Partial(major, 0, 0, false, false, pre))
        else match ParseNumeric(parts[1])
          case None => None
          case Some(minor) =>
            if |parts| == 2 || IsWildcard(parts[2]) then Some(Partial(major, minor, 0, true, false, pre))
            else match ParseNumeric(parts[2])
              case None => None
              case Some(patch) => Some(Partial(major, minor, patch, true, true, pre))
  }

  function ParsePartial(text: string): (r: Option<Partial>)
    ensures r.Some? ==> ValidPartial(r.value)
  {
    var s := TrimPrefix(TrimSpace(text), 'v');
    if s == "" then None
    else
      var i := IndexOf(s, '+');
      var bare := if i < 0 then s else s[..i];
      var j := IndexOf(bare, '-');
      if j < 0 then ParseSegments(Split(bare, '.'), [])
      else ParseSegments(Split(bare[..j], '.'), if bare[j + 1..] == "" then [] else Split(bare[j + 1..], '.'))
  }

  // The dotted segments of an operand.
  function Segments(text: string): seq<string> {
    var s := TrimPrefix(TrimSpace(text), 'v');
    var bare := if IndexOf(s, '+') < 0 then s else s[..IndexOf(s, '+')];
    Split(if IndexOf(bare, '-') < 0 then bare else bare[..IndexOf(bare, '-')], '.')
  }

  // A wildcard major is not recorded, whatever follows it, so the operand reads as major zero.
  lemma WildcardMajorIsZero(text: string)
    requires IsWildcard(Segments(text)[0]) && TrimPrefix(TrimSpace(text), 'v') != ""
    ensures ParsePartial(text).Some? <==> |Segments(text)| <= 3
    ensures ParsePartial(text).Some? ==> ParsePartial(text).value == Wildcard(ParsePartial(text).value.pre)
  {
    var s := TrimPrefix(TrimSpace(text), 'v');
    var bare := if IndexOf(s, '+') < 0 then s else s[..IndexOf(s, '+')];
    assert Segments(text) == Split(if IndexOf(bare, '-') < 0 then bare else bare[..IndexOf(bare, '-')], '.');
  }

  // ---- tokens

  datatype Operator = Caret | Tilde | Bound(op: Op) | Exact

  // The operator a token starts with, and how many characters it takes.
  function OperatorOf(tok: string): (Operator, nat) {
    if "^" <= tok then (Caret, 1)
    else if "~>" <= tok then (Tilde, 2)
    else if "~" <= tok then (Tilde, 1)
    else if ">=" <= tok then (Bound(GTE), 2)
    else if "<=" <= tok then (Bound(LTE), 2)
    else if ">" <= tok then (Bound(GT), 1)
    else if "<" <= tok then (Bound(LT), 1)
    else if "=" <= tok then (Exact, 1)
    else (Exact, 0)
  }

  function Desugar(operator: Operator, p: Partial): ComparatorSet {
    match operator
    case Caret => CaretRange(p)
    case Tilde => TildeRange(p)
    case Bound(op) => BoundComparator(op, p)
    case Exact => ExactRange(p)
  }

  // A wildcard standing alone is any version; anything else is an operator, if any, and its operand.
  function ParseComparator(tok: string): Option<ComparatorSet> {
    if IsWildcard(tok) then Some([Comparator(GTE, ZERO)])
    else
      var (operator, width) := OperatorOf(tok);
      match ParsePartial(tok[if width <= |tok| then width else 0..])
      case None => None
      case Some(p) => Some(Desugar(operator, p))
  }

  const OPERATORS := ["^", "~", "~>", ">=", "<=", ">", "<", "="]

  predicate StartsOperator(w: string) {
    w != "" && w[0] in ['^', '~', '<', '>', '=']
  }

  lemma OperatorReads(op: string, w: string)
    requires op in OPERATORS && w != "" && !StartsOperator(w)
    ensures OperatorOf(op + w) == OperatorOf(op) && OperatorOf(op).1 == |op| && (op + w)[|op|..] == w && !IsWildcard(op + w)
    ensures OperatorOf(op).0 == Bound(GTE) <==> op == ">="
    ensures OperatorOf(op).0.Bound? ==> OperatorOf(op).0.op != EQ
  {
    var tok := op + w;
    assert tok[0] == op[0] && tok[|op|] == w[0];
    if |op| == 2 {
      assert tok[1] == op[1];
    }
  }

  // The operand is a wildcard, with or without a prerelease: "x", "x.x", "*.1" or "x-beta".
  predicate ReadsWild(w: string) {
    ParsePartial(w).Some? && ParsePartial(w).value == Wildcard(ParsePartial(w).value.pre)
  }

  // Under an operator it means any version only after ">=".
  lemma WildcardUnderToken(op: string, w: string)
    requires op in OPERATORS && ReadsWild(w) && w != "" && !StartsOperator(w)
    ensures ParseComparator(op + w).Some? && (AdmitsEveryRelease(ParseComparator(op + w).value) <==> op == ">=")
  {
    OperatorReads(op, w);
    var operator, wild := OperatorOf(op).0, ParsePartial(w).value;
    assert ParseComparator(op + w) == Some(Desugar(operator, wild));
    WildcardUnderOperator(if operator.Bound? then operator.op else EQ, wild.pre);
  }

  // Bare, it means any version only as a single wildcard.
  lemma BareWildcard(w: string)
    requires ReadsWild(w) && w != "" && !StartsOperator(w)
    ensures ParseComparator(w).Some? && (AdmitsEveryRelease(ParseComparator(w).value) <==> IsWildcard(w))
  {
    if IsWildcard(w) {
      WildcardUnderOperator(GTE, []);
      assert BoundComparator(GTE, Wildcard([])) == [Comparator(GTE, ZERO)];
    } else {
      BareIsExact(w);
      WildcardUnderOperator(EQ, ParsePartial(w).value.pre);
    }
  }

  lemma BareIsExact(w: string)
    requires w != "" && !StartsOperator(w) && !IsWildcard(w) && ParsePartial(w).Some?
    ensures ParseComparator(w) == Some(ExactRange(ParsePartial(w).value))
  {
    BareOperator(w);
  }

  lemma BareOperator(w: string)
    requires w != "" && !StartsOperator(w)
    ensures OperatorOf(w) == (Exact, 0) && w[0..] == w
  {
  }

  // ---- reading undoes writing

  // The components an operand gives, as written.
  function Given(p: Partial): (parts: seq<string>)
    ensures 0 < |parts| <= 3
  {
    [FormatUint(p.major)] + (if p.hasMinor then [FormatUint(p.minor)] else []) + (if p.hasPatch then [FormatUint(p.patch)] else [])
  }

  function PartialText(p: Partial): string {
    Join(Given(p), '.') + if p.pre == [] then [] else ['-'] + Join(p.pre, '.')
  }

  // An operand that could have been written down: nothing in an identifier or at the end that reading
  // would take for something else.
  predicate PartialWritable(p: Partial) {
    && ValidPartial(p)
    && (forall x :: x in p.pre ==> '.' !in x && '+' !in x)
    && (p.pre != [] ==> Join(p.pre, '.') != "" && !IsSpace(Join(p.pre, '.')[|Join(p.pre, '.')| - 1]))
  }

  predicate Numeral(s: string) {
    s != "" && AllDigits(s)
  }

  lemma NumeralReads(n: uint64)
    ensures Numeral(FormatUint(n)) && ParseNumeric(FormatUint(n)) == Some(n)
  {
    FormatIsNumeral(n);
  }

  lemma NumeralIsPlain(s: string)
    requires Numeral(s)
    ensures !IsWildcard(s) && '.' !in s && '+' !in s && '-' !in s && IsDigit(s[0]) && IsDigit(s[|s| - 1])
  {
    assert forall c :: c in s ==> IsDigit(c);
    assert s[0] in s;
  }

  lemma SegmentsRead(parts: seq<string>, p: Partial)
    requires ValidPartial(p) && 0 < |parts| <= 3 && forall x :: x in parts ==> Numeral(x)
    requires ParseNumeric(parts[0]) == Some(p.major)
    requires |parts| > 1 <==> p.hasMinor
    requires |parts| > 2 <==> p.hasPatch
    requires |parts| > 1 ==> ParseNumeric(parts[1]) == Some(p.minor)
    requires |parts| > 2 ==> ParseNumeric(parts[2]) == Some(p.patch)
    ensures ParseSegments(parts, p.pre) == Some(p)
  {
    forall k | 0 <= k < |parts| ensures !IsWildcard(parts[k]) {
      NumeralIsPlain(parts[k]);
    }
  }

  lemma GivenReads(p: Partial)
    requires ValidPartial(p)
    ensures forall x :: x in Given(p) ==> Numeral(x)
    ensures ParseSegments(Given(p), p.pre) == Some(p)
  {
    NumeralReads(p.major);
    NumeralReads(p.minor);
    NumeralReads(p.patch);
    var a, b, c := FormatUint(p.major), FormatUint(p.minor), FormatUint(p.patch);
    var parts := if p.hasPatch then [a, b, c] else if p.hasMinor then [a, b] else [a];
    assert Given(p) == parts;
    SegmentsRead(parts, p);
  }

  lemma {:induction false} NumeralsJoin(parts: seq<string>)
    requires parts != [] && forall x :: x in parts ==> Numeral(x)
    ensures var s := Join(parts, '.');
      s != "" && IsDigit(s[0]) && IsDigit(s[|s| - 1])
  {
    NumeralIsPlain(parts[0]);
    if |parts| > 1 {
      NumeralsJoin(parts[1..]);
      var rest := Join(parts[1..], '.');
      var s := Join(parts, '.');
      assert s == parts[0] + ['.'] + rest;
      assert s[0] == parts[0][0] && s[|s| - 1] == rest[|rest| - 1];
    }
  }

  lemma NumeralsSplit(parts: seq<string>)
    requires parts != [] && forall x :: x in parts ==> Numeral(x)
    ensures var s := Join(parts, '.');
      '+' !in s && '-' !in s && Split(s, '.') == parts
  {
    forall x | x in parts ensures '.' !in x && '+' !in x && '-' !in x {
      NumeralIsPlain(x);
    }
    SplitUndoesJoin(parts, '.');
    JoinAvoids(parts, '.', '+');
    JoinAvoids(parts, '.', '-');
  }

  lemma NothingTrimmed(s: string)
    requires s != "" && IsDigit(s[0]) && !IsSpace(s[|s| - 1])
    ensures TrimSpace(s) == s && TrimPrefix(s, 'v') == s
  {
  }

  // A core with nothing after it.
  lemma PlainOperandReads(core: string, p: Partial)
    requires core != "" && IsDigit(core[0]) && IsDigit(core[|core| - 1]) && '+' !in core && '-' !in core
    requires ParseSegments(Split(core, '.'), []) == Some(p)
    ensures ParsePartial(core) == Some(p)
  {
    NothingTrimmed(core);
    IndexOfFirst(core, '+', []);
    IndexOfFirst(core, '-', []);
  }

  // A core and a prerelease after a dash.
  lemma PrereleaseOperandReads(core: string, tail: string, p: Partial)
    requires core != "" && IsDigit(core[0]) && '+' !in core && '-' !in core
    requires tail != "" && '+' !in tail && !IsSpace(tail[|tail| - 1])
    requires ParseSegments(Split(core, '.'), Split(tail, '.')) == Some(p)
    ensures ParsePartial(core + ['-'] + tail) == Some(p)
  {
    var s := core + ['-'] + tail;
    assert s[0] == core[0] && s[|s| - 1] == tail[|tail| - 1];
    NothingTrimmed(s);
    IndexOfFirst(s, '+', []);
    IndexOfFirst(core, '-', tail);
    assert s[..|core|] == core && s[|core| + 1..] == tail;
  }

  // Each component written is the component read, and the identifiers after the first dash are the
  // prerelease.
  lemma ParsePartialUndoesText(p: Partial)
    requires PartialWritable(p)
    ensures ParsePartial(PartialText(p)) == Some(p)
  {
    GivenReads(p);
    NumeralsJoin(Given(p));
    NumeralsSplit(Given(p));
    var core := Join(Given(p), '.');
    if p.pre == [] {
      assert PartialText(p) == core;
      PlainOperandReads(core, p);
    } else {
      JoinAvoids(p.pre, '.', '+');
      SplitUndoesJoin(p.pre, '.');
      assert PartialText(p) == core + ['-'] + Join(p.pre, '.');
      PrereleaseOperandReads(core, Join(p.pre, '.'), p);
    }
  }
}
