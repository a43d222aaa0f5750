/** HTML escaping: every character of `& < > " ' /` is replaced by its
    character entity, every other character is copied. */
module EscapeHtmlUtil {

  /** The characters the escaping replaces. */
  predicate IsSpecial(c: char)
  {
    c == '&' || c == '<' || c == '>' || c == '"' || c == '\'' || c == '/'
  }

  /** The entity table. */
  function Entity(c: char): (e: string)
    requires IsSpecial(c)
  {
    match c
    case '&' => "&amp;"
    case '<' => "&lt;"
    case '>' => "&gt;"
    case '"' => "&quot;"
    case '\'' => "&#x27;"
    case '/' => "&#x2F;"
  }

  function EscapeChar(c: char): (r: string)
    ensures IsSpecial(c) ==> r == Entity(c)
    ensures !IsSpecial(c) ==> r == [c]
  {
    if IsSpecial(c) then Entity(c) else [c]
  }

  /** The global replace over the string, left to right. */
  function Escape(s: string): (r: string)
    ensures |s| <= |r| <= 6 * |s|
  {
    if s == [] then [] else EscapeChar(s[0]) + Escape(s[1..])
  }

  /** Escaping distributes over concatenation. */
  lemma {:induction false} EscapeConcat(a: string, b: string)
    ensures Escape(a + b) == Escape(a) + Escape(b)
  {
    if a != [] {
      assert (a + b)[0] == a[0];
      assert (a + b)[1..] == a[1..] + b;
      EscapeConcat(a[1..], b);
    } else {
      assert a + b == b;
    }
  }

  /** The output contains none of `< > " ' /`; every `&` in it starts an entity. */
  lemma {:induction false} EscapeIsSafe(s: string)
    ensures forall i :: 0 <= i < |Escape(s)| ==> !IsSpecial(Escape(s)[i]) || Escape(s)[i] == '&'
  {
    if s != [] {
      EscapeIsSafe(s[1..]);
      var e := EscapeChar(s[0]);
      assert forall i :: 0 <= i < |e| ==> !IsSpecial(e[i]) || e[i] == '&';
    }
  }

  /** The output is never shorter than the input, and is exactly as long when
      (and only when) the input has no special character, in which case it is
      the input itself. */
  lemma {:induction false} EscapeLength(s: string)
    ensures |Escape(s)| >= |s|
    ensures |Escape(s)| == |s| <==> forall i :: 0 <= i < |s| ==> !IsSpecial(s[i])
    ensures (forall i :: 0 <= i < |s| ==> !IsSpecial(s[i])) ==> Escape(s) == s
  {
    if s != [] {
      EscapeLength(s[1..]);
      assert forall i :: 1 <= i < |s| ==> s[i] == s[1..][i - 1];
      if forall i :: 0 <= i < |s| ==> !IsSpecial(s[i]) {
        assert forall i :: 0 <= i < |s[1..]| ==> !IsSpecial(s[1..][i]);
        assert s == [s[0]] + s[1..];
      }
    }
  }

  /** Decoding of the six entities, the inverse of the escaping. A `&` that
      starts no entity is copied. */
  function Unescape(s: string): (r: string)
  {
    if s == [] then []
    else if s[0] != '&' then [s[0]] + Unescape(s[1..])
    else if |s| >= 5 && s[1] == 'a' && s[2] == 'm' && s[3] == 'p' && s[4] == ';' then "&" + Unescape(s[5..])
    else if |s| >= 4 && s[1] == 'l' && s[2] == 't' && s[3] == ';' then "<" + Unescape(s[4..])
    else if |s| >= 4 && s[1] == 'g' && s[2] == 't' && s[3] == ';' then ">" + Unescape(s[4..])
    else if |s| >= 6 && s[1] == 'q' && s[2] == 'u' && s[3] == 'o' && s[4] == 't' && s[5] == ';' then "\"" + Unescape(s[6..])
    else if |s| >= 6 && s[1] == '#' && s[2] == 'x' && s[3] == '2' && s[4] == '7' && s[5] == ';' then "'" + Unescape(s[6..])
    else if |s| >= 6 && s[1] == '#' && s[2] == 'x' && s[3] == '2' && s[4] == 'F' && s[5] == ';' then "/" + Unescape(s[6..])
    else [s[0]] + Unescape(s[1..])
  }

  /** Decoding an escaped character followed by anything gives the
      character back, followed by the decoding of the rest. */
  lemma UnescapeStep(c: char, rest: string)
    ensures Unescape(EscapeChar(c) + rest) == [c] + Unescape(rest)
  {
    var t := EscapeChar(c) + rest;
    if !IsSpecial(c) {
      assert t[0] == c && t[1..] == rest;
    } else if c == '&' {
      assert t[1] == 'a' && t[5..] == rest;
    } else if c == '<' {
      assert t[1] == 'l' && t[4..] == rest;
    } else if c == '>' {
      assert t[1] == 'g' && t[4..] == rest;
    } else if c == '"' {
      assert t[1] == 'q' && t[6..] == rest;
    } else if c == '\'' {
      assert t[1] == '#' && t[4] == '7' && t[6..] == rest;
    } else {
      assert t[1] == '#' && t[4] == 'F' && t[6..] == rest;
    }
  }

  /** Nothing is lost by escaping: decoding the output gives the input back. */
  lemma {:induction false} UnescapeEscape(s: string)
    ensures Unescape(Escape(s)) == s
  {
    if s != [] {
      UnescapeEscape(s[1..]);
      UnescapeStep(s[0], Escape(s[1..]));
      assert s == [s[0]] + s[1..];
    }
  }
}
