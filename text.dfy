/**
 * The .NET string operations the scene windows rely on: LastIndexOf(char),
 * Substring(start, length), ToLower() and Contains(string).
 */
module Text {
  import opened Results

  /** The last index of `c` in `s`, or -1 when `c` does not occur (String.LastIndexOf(char)). */
  function LastIndexOf(s: string, c: char): (r: int)
    ensures -1 <= r < |s|
    ensures r >= 0 ==> s[r] == c
    ensures forall j | r < j < |s| :: s[j] != c
  {
    if |s| == 0 then -1
    else if s[|s| - 1] == c then |s| - 1
    else LastIndexOf(s[..|s| - 1], c)
  }

  /** The exception String.Substring throws when the range does not lie inside the string. */
  datatype SubstringError = ArgumentOutOfRange(start: int, length: int)

  /** String.Substring(start, length): the `length` characters from `start`, or an error. */
  function Substring(s: string, start: int, length: int): (r: Result<string, SubstringError>)
    ensures r.Ok? <==> 0 <= start && 0 <= length && start + length <= |s|
    ensures r.Ok? ==> |r.value| == length
    ensures r.Ok? ==> forall k | 0 <= k < length :: r.value[k] == s[start + k]
  {
    if start < 0 || length < 0 || start > |s| - length then Err(ArgumentOutOfRange(start, length))
    else Ok(s[start..start + length])
  }

  predicate IsUpper(c: char) {
    'A' <= c <= 'Z'
  }

  /** Lower-cases one character; only the ASCII letters A-Z are folded. */
  function LowerChar(c: char): (d: char)
    ensures !IsUpper(d)
    ensures !IsUpper(c) ==> d == c
    ensures IsUpper(c) ==> 'a' <= d <= 'z' && d as int - 'a' as int == c as int - 'A' as int
  {
    if IsUpper(c) then (c as int - 'A' as int + 'a' as int) as char else c
  }

  /** String.ToLower(), restricted to ASCII case folding. */
  function ToLower(s: string): (r: string)
    ensures |r| == |s|
    ensures forall i | 0 <= i < |r| :: !IsUpper(r[i])
    ensures forall i | 0 <= i < |r| :: LowerChar(r[i]) == LowerChar(s[i])
  {
    seq(|s|, i requires 0 <= i < |s| => LowerChar(s[i]))
  }

  /** `sub` occurs in `s` starting at index `i`. */
  ghost predicate OccursAt(s: string, sub: string, i: int) {
    0 <= i && i + |sub| <= |s| && s[i..i + |sub|] == sub
  }

  lemma OccursAtTail(s: string, sub: string, i: int)
    requires |s| > 0 && 0 <= i
    ensures OccursAt(s[1..], sub, i) <==> OccursAt(s, sub, i + 1)
  {
    if i + |sub| <= |s| - 1 {
      assert s[1..][i..i + |sub|] == s[i + 1..i + 1 + |sub|];
    }
  }

  /** String.Contains(string) with ordinal comparison: `sub` occurs somewhere in `s`. */
  function Contains(s: string, sub: string): (r: bool)
    ensures r <==> exists i :: OccursAt(s, sub, i)
    decreases |s|
  {
    if |sub| > |s| then false
    else if s[..|sub|] == sub then
      assert OccursAt(s, sub, 0);
      true
    else
      assert !OccursAt(s, sub, 0);
      assert forall i | 0 <= i :: OccursAt(s[1..], sub, i) <==> OccursAt(s, sub, i + 1) by {
        forall i | 0 <= i ensures OccursAt(s[1..], sub, i) <==> OccursAt(s, sub, i + 1) {
          OccursAtTail(s, sub, i);
        }
      }
      assert (exists i :: OccursAt(s, sub, i)) ==> exists i :: OccursAt(s[1..], sub, i) by {
        if exists i :: OccursAt(s, sub, i) {
          var i :| OccursAt(s, sub, i);
          assert OccursAt(s[1..], sub, i - 1);
        }
      }
      Contains(s[1..], sub)
  }
}
