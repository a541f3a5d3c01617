/** `to_lower`: `text.lower()`, restricted to the ASCII letters. */
module Case {
  import opened Chars

  /** Position by position, 'A'..'Z' become 'a'..'z' and everything else
      stays; the length is unchanged. */
  function ToLower(s: string): (r: string)
    ensures |r| == |s|
    ensures forall i :: 0 <= i < |s| ==> r[i] == LowerChar(s[i])
  {
    if s == [] then [] else [LowerChar(s[0])] + ToLower(s[1..])
  }

  /** No upper-case ASCII letter survives, and a second pass changes nothing. */
  lemma ToLowerIdempotent(s: string)
    ensures forall i :: 0 <= i < |ToLower(s)| ==> !IsAsciiUpper(ToLower(s)[i])
    ensures ToLower(ToLower(s)) == ToLower(s)
  {
  }

  lemma Mixed()
    ensures ToLower("MiXeD") == "mixed"
  {
  }
}
