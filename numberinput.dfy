/** The `format` and `parse` hooks of src/NumberInputRoot.js, the number
    field the app builds on. Without format options both hooks hand the
    value back unchanged. With them, `format` shows nothing for a missing
    or empty value and the locale formatter's text otherwise, and `parse`
    keeps only the characters `0-9 . + -` of what was typed. */
module NumberInput {

  /** What the number field can hold: nothing (`null`, `undefined`), the
      typed text, or a number. */
  datatype InputValue = Null | Undefined | Text(s: string) | Number(n: int)

  /** A character the `[^0-9.+-]` class does not remove. */
  predicate Allowed(c: char) {
    ('0' <= c <= '9') || c == '.' || c == '+' || c == '-'
  }

  /** `value.replace(/[^0-9.+-]/g, '')`: every other character is dropped. */
  function KeepNumeric(s: string): (r: string)
    ensures |r| <= |s|
    ensures forall i :: 0 <= i < |r| ==> Allowed(r[i])
  {
    if s == [] then []
    else (if Allowed(s[0]) then [s[0]] else []) + KeepNumeric(s[1..])
  }

  /** The hook `parse` with or without format options. */
  function Parse(hasOptions: bool, value: string): (r: string)
    ensures !hasOptions ==> r == value
    ensures hasOptions ==> forall i :: 0 <= i < |r| ==> Allowed(r[i])
  {
    if hasOptions then KeepNumeric(value) else value
  }

  /** The hook `format`. `formatted` is what `Intl.NumberFormat` gives for
      the value; identity without options, the empty text for a missing
      or empty value. */
  function Format(hasOptions: bool, value: InputValue, formatted: string): (r: InputValue)
    ensures !hasOptions ==> r == value
    ensures hasOptions && (value == Null || value == Undefined || value == Text("")) ==> r == Text("")
    ensures hasOptions && !(value == Null || value == Undefined || value == Text("")) ==> r == Text(formatted)
  {
    if !hasOptions then value
    else if value == Null || value == Undefined || value == Text("") then Text("")
    else Text(formatted)
  }

  /** The filter works character by character: the result of a
      concatenation is the concatenation of the results. */
  lemma {:induction false} KeepNumericAppend(a: string, b: string)
    ensures KeepNumeric(a + b) == KeepNumeric(a) + KeepNumeric(b)
  {
    if a == [] {
      assert a + b == b;
    } else {
      assert (a + b)[0] == a[0];
      assert (a + b)[1..] == a[1..] + b;
      KeepNumericAppend(a[1..], b);
    }
  }

  /** Each allowed character is kept as often as it occurs; every other
      character is gone. */
  lemma {:induction false} KeepNumericCounts(s: string, c: char)
    ensures multiset(KeepNumeric(s))[c] == if Allowed(c) then multiset(s)[c] else 0
  {
    if s != [] {
      KeepNumericCounts(s[1..], c);
      assert s == [s[0]] + s[1..];
    }
  }

  /** Text made only of allowed characters comes back unchanged, and only
      such text does. */
  lemma {:induction false} KeepNumericIdentity(s: string)
    ensures KeepNumeric(s) == s <==> forall i :: 0 <= i < |s| ==> Allowed(s[i])
  {
    if s != [] {
      KeepNumericIdentity(s[1..]);
      if forall i :: 0 <= i < |s| ==> Allowed(s[i]) {
        assert forall i :: 0 <= i < |s[1..]| ==> Allowed(s[1..][i]) by {
          forall i | 0 <= i < |s[1..]| ensures Allowed(s[1..][i]) {
            assert s[1..][i] == s[i + 1];
          }
        }
        assert s == [s[0]] + s[1..];
      }
    }
  }

  /** Parsing what was already parsed changes nothing. */
  lemma KeepNumericIdempotent(s: string)
    ensures KeepNumeric(KeepNumeric(s)) == KeepNumeric(s)
  {
    KeepNumericIdentity(KeepNumeric(s));
  }

  /** A single character is kept exactly when it is allowed; together
      with `KeepNumericAppend` this fixes the result for every input: the
      allowed characters of the input, in their order. */
  lemma KeepNumericChar(c: char)
    ensures KeepNumeric([c]) == if Allowed(c) then [c] else []
  {
    assert [c][1..] == [];
  }
}
