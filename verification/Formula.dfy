/** The guard against spreadsheet formulas in exported cells. */
module Formula {

  /** Which characters are white space, control or format characters. The Unicode tables are a
      parameter; of them only this is used: the characters that the guard looks for, and the quote
      that it puts before a value, are none of these. */
  type Skippable = skip: char -> bool
    | !skip('=') && !skip('+') && !skip('-') && !skip('@') && !skip('\'')
    witness (c: char) => c == ' '

  predicate IsTrigger(c: char)
  {
    c == '=' || c == '+' || c == '-' || c == '@'
  }

  /** The first character that is not skippable is a trigger. */
  predicate LeadsToTrigger(value: string, skip: Skippable)
  {
    exists k | 0 <= k < |value| :: IsTrigger(value[k]) && SkippableUpTo(value, k, skip)
  }

  predicate SkippableUpTo(value: string, k: int, skip: Skippable)
    requires 0 <= k <= |value|
  {
    forall j | 0 <= j < k :: skip(value[j])
  }

  predicate StartsDangerously(value: string)
  {
    value != "" && (IsTrigger(value[0]) || value[0] == '\t' || value[0] == '\r' || value[0] == '\n')
  }

  /** A spreadsheet might take the value for a formula. */
  predicate Dangerous(value: string, skip: Skippable)
  {
    StartsDangerously(value) || LeadsToTrigger(value, skip)
  }

  function Protect(value: string, skip: Skippable): string
  {
    if Dangerous(value, skip) then "'" + value else value
  }

  /** What the guard looks for, character by character. */
  lemma DangerousIff(value: string, skip: Skippable)
    ensures Dangerous(value, skip)
       <==> || (value != "" && value[0] in "=+-@\t\r\n")
            || exists k | 0 <= k < |value| :: value[k] in "=+-@" && SkippableUpTo(value, k, skip)
  {
    forall c: char ensures IsTrigger(c) <==> c in "=+-@" {
      OneOfFour(c, "=+-@");
    }
    assert "=+-@\t\r\n" == "=+-@" + "\t\r\n";
  }

  lemma OneOfFour(c: char, marks: string)
    requires |marks| == 4
    ensures c in marks <==> c == marks[0] || c == marks[1] || c == marks[2] || c == marks[3]
  {
  }

  /** The scanning loop puts a quote before a value if and only if the value starts with one of `= + - @`, a tab or
      a line break, or its first character that is not skippable is one of `= + - @`. */
  method ProtectCsv(value: string, skip: Skippable) returns (cell: string)
    ensures cell == Protect(value, skip)
    ensures cell == "'" + value
       <==> || (value != "" && value[0] in "=+-@\t\r\n")
            || exists k | 0 <= k < |value| :: value[k] in "=+-@" && forall j | 0 <= j < k :: skip(value[j])
    ensures cell == value || cell == "'" + value
  {
    DangerousIff(value, skip);
    assert |"'" + value| != |value|;
    if StartsDangerously(value) {
      return "'" + value;
    }
    var index := 0;
    while index < |value|
      invariant index <= |value|
      invariant SkippableUpTo(value, index, skip)
      invariant forall k | 0 <= k < index :: !IsTrigger(value[k])
    {
      var character := value[index];
      if !skip(character) {
        break;
      }
      index := index + 1;
    }
    if index < |value| {
      assert !skip(value[index]);
      assert forall k | index < k < |value| :: !SkippableUpTo(value, k, skip);
    }
    cell := if index < |value| && IsTrigger(value[index]) then "'" + value else value;
  }

  /** The quote makes any value harmless. */
  lemma QuotedIsHarmless(value: string, skip: Skippable)
    ensures !Dangerous("'" + value, skip)
  {
  }

  /** No protected cell is dangerous, protecting it again changes nothing, and at most the quote is added. */
  lemma ProtectIdempotent(value: string, skip: Skippable)
    ensures !Dangerous(Protect(value, skip), skip)
    ensures Protect(Protect(value, skip), skip) == Protect(value, skip)
    ensures value == Protect(value, skip) || "'" + value == Protect(value, skip)
  {
    QuotedIsHarmless(value, skip);
  }

  /** Two values share a cell only when one is the other behind the quote that protection gave it. */
  lemma ProtectCollisions(a: string, b: string, skip: Skippable)
    ensures Protect(a, skip) == Protect(b, skip)
       <==> || a == b
            || (Dangerous(a, skip) && b == "'" + a)
            || (Dangerous(b, skip) && a == "'" + b)
  {
    QuotedIsHarmless(a, skip);
    QuotedIsHarmless(b, skip);
    if Dangerous(a, skip) && Dangerous(b, skip) && "'" + a == "'" + b {
      assert ("'" + a)[1..] == a && ("'" + b)[1..] == b;
    }
  }
}
