/**
 * Splitting the document into lines the way the draw pass does: every
 * character of the newline character set separates two components, so a
 * "\r\n" pair yields an empty component between its two characters.
 */
module Lines {

  /** Membership in the newline character set: U+000A to U+000D, U+0085, U+2028 and U+2029. */
  predicate IsNewline(c: char) {
    var code := c as int;
    (0x0A <= code <= 0x0D) || code == 0x85 || code == 0x2028 || code == 0x2029
  }

  function NewlineCount(s: string): (n: nat)
    ensures n <= |s|
  {
    if |s| == 0 then 0 else (if IsNewline(s[0]) then 1 else 0) + NewlineCount(s[1..])
  }

  /** The newline characters of `s`, in order. */
  function Separators(s: string): (seps: seq<char>)
    ensures forall k :: 0 <= k < |seps| ==> IsNewline(seps[k])
  {
    if |s| == 0 then []
    else if IsNewline(s[0]) then [s[0]] + Separators(s[1..])
    else Separators(s[1..])
  }

  /** The components of `s` between newline characters. */
  function Components(s: string): (parts: seq<string>)
    ensures |parts| >= 1
    ensures forall k, i :: 0 <= k < |parts| && 0 <= i < |parts[k]| ==> !IsNewline(parts[k][i])
  {
    if |s| == 0 then [""]
    else
      var rest := Components(s[1..]);
      if IsNewline(s[0]) then [""] + rest
      else [[s[0]] + rest[0]] + rest[1..]
  }

  /** Puts the separators back between the components. */
  function Interleave(parts: seq<string>, seps: seq<char>): string
    requires |parts| == |seps| + 1
  {
    if |seps| == 0 then parts[0]
    else parts[0] + [seps[0]] + Interleave(parts[1..], seps[1..])
  }

  /** The number of components is the number of newline characters plus one. */
  lemma {:induction false} ComponentCount(s: string)
    ensures |Components(s)| == NewlineCount(s) + 1
    ensures |Separators(s)| == NewlineCount(s)
  {
    if |s| > 0 {
      ComponentCount(s[1..]);
    }
  }

  lemma InterleavePrepend(c: char, parts: seq<string>, seps: seq<char>)
    requires |parts| == |seps| + 1
    ensures Interleave([[c] + parts[0]] + parts[1..], seps) == [c] + Interleave(parts, seps)
  {
  }

  /** Splitting loses nothing: the components joined by the separators give back the text. */
  lemma {:induction false} ComponentsRoundTrip(s: string)
    ensures |Components(s)| == |Separators(s)| + 1
    ensures Interleave(Components(s), Separators(s)) == s
  {
    ComponentCount(s);
    if |s| > 0 {
      ComponentsRoundTrip(s[1..]);
      var rest := Components(s[1..]);
      if IsNewline(s[0]) {
        assert Components(s) == [""] + rest;
        assert ([""] + rest)[1..] == rest;
        assert s == [s[0]] + s[1..];
      } else {
        InterleavePrepend(s[0], rest, Separators(s[1..]));
        assert s == [s[0]] + s[1..];
      }
    }
  }

  /** The number of lines the gutter numbers: the component count. */
  function LineCount(text: string): (n: nat)
    ensures n == NewlineCount(text) + 1
  {
    ComponentCount(text);
    |Components(text)|
  }

  lemma LineCountExamples()
    ensures LineCount("") == 1
    ensures LineCount("a\nb") == 2
    ensures LineCount("a\r\nb") == 3
  {
    ComponentCount("");
    ComponentCount("a\nb");
    ComponentCount("a\r\nb");
    assert "a\nb"[1..] == "\nb" && "\nb"[1..] == "b" && "b"[1..] == "";
    assert "a\r\nb"[1..] == "\r\nb" && "\r\nb"[1..] == "\nb";
  }
}
