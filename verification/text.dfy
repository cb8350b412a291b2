/** String operations the application relies on: lower-casing, substring search
    and the byte-wise ordering SQLite uses to compare TEXT values. */
module Text {

  predicate IsUpper(c: char) {
    'A' <= c <= 'Z'
  }

  /** Lower-cases one ASCII letter; every other character is kept. */
  function LowerChar(c: char): char {
    if IsUpper(c) then (c as int + 32) as char else c
  }

  /** `String.prototype.toLowerCase` restricted to the ASCII alphabet. */
  function ToLower(s: string): (r: string)
    ensures |r| == |s|
    ensures forall i :: 0 <= i < |s| ==> r[i] == LowerChar(s[i])
  {
    if |s| == 0 then "" else [LowerChar(s[0])] + ToLower(s[1..])
  }

  predicate NoUpper(s: string) {
    forall i :: 0 <= i < |s| ==> !IsUpper(s[i])
  }

  /** Lower-casing removes every upper-case letter ... */
  lemma ToLowerHasNoUpper(s: string)
    ensures NoUpper(ToLower(s))
  {
  }

  /** ... and leaves a string without upper-case letters as it is, so lower-casing is idempotent. */
  lemma {:induction false} ToLowerOfNoUpper(s: string)
    requires NoUpper(s)
    ensures ToLower(s) == s
  {
    if |s| > 0 {
      ToLowerOfNoUpper(s[1..]);
    }
  }

  lemma ToLowerIdempotent(s: string)
    ensures ToLower(ToLower(s)) == ToLower(s)
  {
    ToLowerHasNoUpper(s);
    ToLowerOfNoUpper(ToLower(s));
  }

  /** `String.prototype.includes`: `sub` occurs in `s` at some offset. */
  predicate Contains(s: string, sub: string) {
    exists i | 0 <= i <= |s| :: OccursAt(s, sub, i)
  }

  /** `sub` occurs in `s` starting at offset `i`. */
  predicate OccursAt(s: string, sub: string, i: int) {
    0 <= i <= |s| - |sub| && s[i..i + |sub|] == sub
  }

  /** A string containing `sub` contains every character of `sub`; used to refute
      `Contains` on concrete strings by naming one missing character. */
  lemma MissingCharRefutes(s: string, sub: string, c: char)
    requires c in sub && c !in s
    ensures !Contains(s, sub)
  {
    var k :| 0 <= k < |sub| && sub[k] == c;
    forall i | 0 <= i <= |s| - |sub|
      ensures !OccursAt(s, sub, i)
    {
      assert s[i..i + |sub|][k] == s[i + k] != c;
    }
  }

  /** A prefix is contained. */
  lemma PrefixContained(sub: string, rest: string)
    ensures Contains(sub + rest, sub)
  {
    assert OccursAt(sub + rest, sub, 0);
  }

  /** The ordering SQLite's BINARY collation gives TEXT values (code points for ASCII):
      the first differing character decides, and a proper prefix sorts first. */
  predicate LexLess(a: string, b: string) {
    if |b| == 0 then false
    else if |a| == 0 then true
    else if a[0] != b[0] then a[0] < b[0]
    else LexLess(a[1..], b[1..])
  }

  /** On equal-length blocks the order is decided block by block: comparing
      `x1 + x2` with `y1 + y2` compares `x1` with `y1` first and the rest only on a tie. */
  lemma {:induction false} LexLessConcat(x1: string, x2: string, y1: string, y2: string)
    requires |x1| == |y1|
    ensures LexLess(x1 + x2, y1 + y2) <==> LexLess(x1, y1) || (x1 == y1 && LexLess(x2, y2))
  {
    if |x1| == 0 {
      assert x1 + x2 == x2 && y1 + y2 == y2;
    } else {
      assert (x1 + x2)[0] == x1[0] && (y1 + y2)[0] == y1[0];
      assert (x1 + x2)[1..] == x1[1..] + x2 && (y1 + y2)[1..] == y1[1..] + y2;
      LexLessConcat(x1[1..], x2, y1[1..], y2);
      if x1[0] == y1[0] && x1[1..] == y1[1..] {
        assert x1 == y1 by {
          assert x1 == [x1[0]] + x1[1..] && y1 == [y1[0]] + y1[1..];
        }
      }
    }
  }
}
