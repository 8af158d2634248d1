/**
 htmlEscape and htmlUnescape (std/StringTools.hx:144-204).  Unescaping is five global replacements,
 one after the other, each a split and a join; "&amp;" is the last.
 */
module Html {
  import opened Sequences

  // ------------------------------------------------------------------ split and join

  /** The parts of s between the occurrences of delimiter, from the left. */
  function Split(s: seq<char>, delimiter: seq<char>): (parts: seq<seq<char>>)
    requires delimiter != []
    ensures |parts| >= 1
    decreases |s|
  {
    if s == [] then [[]]
    else if delimiter <= s then [[]] + Split(s[|delimiter|..], delimiter)
    else
      var rest := Split(s[1..], delimiter);
      [[s[0]] + rest[0]] + rest[1..]
  }

  function Join(parts: seq<seq<char>>, separator: seq<char>): seq<char>
    requires |parts| >= 1
  {
    if |parts| == 1 then parts[0] else parts[0] + separator + Join(parts[1..], separator)
  }

  function Replace(s: seq<char>, what: seq<char>, instead: seq<char>): seq<char>
    requires what != []
  {
    Join(Split(s, what), instead)
  }

  lemma ReplaceStep(s: seq<char>, what: seq<char>, instead: seq<char>)
    requires what != []
    ensures s == [] ==> Replace(s, what, instead) == []
    ensures s != [] && what <= s ==> Replace(s, what, instead) == instead + Replace(s[|what|..], what, instead)
    ensures s != [] && !(what <= s) ==> Replace(s, what, instead) == [s[0]] + Replace(s[1..], what, instead)
  {
    hide Join;
    if s == [] {
      JoinOne([], instead);
    } else if what <= s {
      JoinMore([], Split(s[|what|..], what), instead);
    } else {
      JoinFirst(s[0], Split(s[1..], what), instead);
    }
  }

  lemma JoinOne(part: seq<char>, separator: seq<char>)
    ensures Join([part], separator) == part
  {
  }

  lemma JoinMore(part: seq<char>, rest: seq<seq<char>>, separator: seq<char>)
    requires |rest| >= 1
    ensures Join([part] + rest, separator) == part + separator + Join(rest, separator)
  {
    assert ([part] + rest)[1..] == rest;
  }

  lemma JoinFirst(c: char, parts: seq<seq<char>>, separator: seq<char>)
    requires |parts| >= 1
    ensures Join([[c] + parts[0]] + parts[1..], separator) == [c] + Join(parts, separator)
  {
    hide Join;
    var first, rest := parts[0], parts[1..];
    if rest == [] {
      JoinOne(first, separator);
      JoinOne([c] + first, separator);
      assert parts == [first] && [[c] + first] + rest == [[c] + first];
    } else {
      JoinMore(first, rest, separator);
      JoinMore([c] + first, rest, separator);
      assert parts == [first] + rest;
      Assoc([c] + first, separator, Join(rest, separator));
      Assoc([c], first, separator + Join(rest, separator));
      Assoc(first, separator, Join(rest, separator));
    }
  }

  // ------------------------------------------------------------------ the two functions

  function HtmlUnescape(s: seq<char>): seq<char> {
    var angles := Replace(Replace(s, "&gt;", ">"), "&lt;", "<");
    var quotes := Replace(Replace(angles, "&quot;", "\""), "&#039;", "'");
    Replace(quotes, "&amp;", "&")
  }

  /** What one character becomes. */
  function Escaped(c: char, quotes: bool): seq<char> {
    if c == '&' then "&amp;"
    else if c == '<' then "&lt;"
    else if c == '>' then "&gt;"
    else if c == '"' && quotes then "&quot;"
    else if c == '\'' && quotes then "&#039;"
    else [c]
  }

  function EscapedAll(s: seq<char>, quotes: bool): seq<char> {
    if s == [] then [] else Escaped(s[0], quotes) + EscapedAll(s[1..], quotes)
  }

  /** One of the entities that an escape writes begins t. */
  predicate EntityBegins(t: seq<char>, quotes: bool) {
    "&amp;" <= t || "&lt;" <= t || "&gt;" <= t || (quotes && ("&quot;" <= t || "&#039;" <= t))
  }

  /** No special character is left, and every ampersand begins an entity. */
  predicate Safe(t: seq<char>, quotes: bool) {
    && '<' !in t && '>' !in t && (quotes ==> '"' !in t && '\'' !in t)
    && forall i :: 0 <= i < |t| && t[i] == '&' ==> EntityBegins(t[i..], quotes)
  }

  lemma EntityKept(a: seq<char>, rest: seq<char>, quotes: bool)
    requires EntityBegins(a, quotes)
    ensures EntityBegins(a + rest, quotes)
  {
  }

  lemma EntityIsSafe(e: seq<char>, quotes: bool)
    requires EntityBegins(e, quotes) && forall i :: 1 <= i < |e| ==> e[i] != '&'
    requires '<' !in e && '>' !in e && '"' !in e && '\'' !in e
    ensures Safe(e, quotes)
  {
    hide EntityBegins;
    forall i | 0 <= i < |e| && e[i] == '&'
      ensures EntityBegins(e[i..], quotes)
    {
      assert e[0..] == e;
    }
  }

  lemma EscapedIsSafe(c: char, quotes: bool)
    ensures Safe(Escaped(c, quotes), quotes)
  {
    hide Safe;
    var e := Escaped(c, quotes);
    if e == [c] {
      PlainIsSafe(c, quotes);
    } else {
      EntityIsSafe(e, quotes);
    }
  }

  lemma PlainIsSafe(c: char, quotes: bool)
    requires c != '&' && c != '<' && c != '>' && (quotes ==> c != '"' && c != '\'')
    ensures Safe([c], quotes)
  {
  }

  lemma SafeConcat(a: seq<char>, b: seq<char>, quotes: bool)
    requires Safe(a, quotes) && Safe(b, quotes)
    ensures Safe(a + b, quotes)
  {
    hide EntityBegins;
    var t := a + b;
    forall i | 0 <= i < |t| && t[i] == '&'
      ensures EntityBegins(t[i..], quotes)
    {
      if i < |a| {
        assert t[i..] == a[i..] + b;
        EntityKept(a[i..], b, quotes);
      } else {
        assert t[i..] == b[i - |a|..];
      }
    }
  }

  lemma {:induction false} EscapedAllIsSafe(s: seq<char>, quotes: bool)
    ensures Safe(EscapedAll(s, quotes), quotes)
  {
    hide Escaped, Safe;
    if s == [] {
      NothingIsSafe(quotes);
    } else {
      EscapedIsSafe(s[0], quotes);
      EscapedAllIsSafe(s[1..], quotes);
      SafeConcat(Escaped(s[0], quotes), EscapedAll(s[1..], quotes), quotes);
    }
  }

  lemma NothingIsSafe(quotes: bool)
    ensures Safe([], quotes)
  {
  }

  method HtmlEscape(s: seq<char>, quotes: bool) returns (buf: seq<char>)
    ensures buf == EscapedAll(s, quotes)
    ensures HtmlUnescape(buf) == s
    ensures '<' !in buf && '>' !in buf
    ensures quotes ==> '"' !in buf && '\'' !in buf
    ensures forall i :: 0 <= i < |buf| && buf[i] == '&' ==>
      || "&amp;" <= buf[i..] || "&lt;" <= buf[i..] || "&gt;" <= buf[i..]
      || (quotes && ("&quot;" <= buf[i..] || "&#039;" <= buf[i..]))
  {
    buf := [];
    var i := 0;
    assert s[0..] == s;
    while i < |s|
      invariant i <= |s| && buf + EscapedAll(s[i..], quotes) == EscapedAll(s, quotes)
    {
      var code := s[i];
      ghost var before := buf;
      if code == '&' {
        buf := buf + "&amp;";
      } else if code == '<' {
        buf := buf + "&lt;";
      } else if code == '>' {
        buf := buf + "&gt;";
      } else if code == '"' && quotes {
        buf := buf + "&quot;";
      } else if code == '\'' && quotes {
        buf := buf + "&#039;";
      } else {
        buf := buf + [code];
      }
      assert s[i..][1..] == s[i + 1..];
      assert buf == before + Escaped(code, quotes);
      Assoc(before, Escaped(code, quotes), EscapedAll(s[i + 1..], quotes));
      i := i + 1;
    }
    assert buf + [] == buf;
    UnescapeUndoesEscape(s, quotes);
    EscapedAllIsSafe(s, quotes);
  }

  // ------------------------------------------------------------------ what is left after each pass

  /** The entities in the order of the passes. */
  function Entity(pass: nat): seq<char>
    requires pass < 5
    ensures Entity(pass) != []
  {
    ["&gt;", "&lt;", "&quot;", "&#039;", "&amp;"][pass]
  }

  function Plain(pass: nat): char
    requires pass < 5
  {
    ['>', '<', '"', '\'', '&'][pass]
  }

  /** Which pass undoes the escape of c; 5 when c is not escaped. */
  function PassOf(c: char, quotes: bool): (p: nat)
    ensures p <= 5
  {
    if c == '>' then 0 else if c == '<' then 1
    else if c == '"' && quotes then 2 else if c == '\'' && quotes then 3
    else if c == '&' then 4 else 5
  }

  /** The characters of s after so many passes: entities that are still to be undone, and plain ones. */
  function Rendered(c: char, quotes: bool, passes: nat): seq<char> {
    var p := PassOf(c, quotes);
    if p < 5 && p >= passes then Entity(p) else [c]
  }

  function RenderedAll(s: seq<char>, quotes: bool, passes: nat): seq<char> {
    if s == [] then [] else Rendered(s[0], quotes, passes) + RenderedAll(s[1..], quotes, passes)
  }

  /** Text without an ampersand is not touched by a pass. */
  lemma {:induction false} PlainKept(t: seq<char>, rest: seq<char>, pass: nat)
    requires pass < 5 && '&' !in t
    ensures Replace(t + rest, Entity(pass), [Plain(pass)]) == t + Replace(rest, Entity(pass), [Plain(pass)])
    decreases |t|
  {
    var e := Entity(pass);
    if t == [] {
      assert t + rest == rest;
      assert t + Replace(rest, e, [Plain(pass)]) == Replace(rest, e, [Plain(pass)]);
    } else {
      var s := t + rest;
      assert e[0] == '&' && s[0] == t[0];
      ReplaceStep(s, e, [Plain(pass)]);
      assert s[1..] == t[1..] + rest;
      PlainKept(t[1..], rest, pass);
      Assoc([t[0]], t[1..], Replace(rest, e, [Plain(pass)]));
      assert [t[0]] + t[1..] == t;
    }
  }

  /** Another entity is not touched by a pass. */
  lemma OtherKept(p: nat, rest: seq<char>, pass: nat)
    requires p < 5 && pass < 5 && p != pass
    ensures Replace(Entity(p) + rest, Entity(pass), [Plain(pass)])
         == Entity(p) + Replace(rest, Entity(pass), [Plain(pass)])
  {
    var e, d := Entity(pass), Entity(p);
    var s := d + rest;
    assert e[1] != d[1] && s[1] == d[1];
    ReplaceStep(s, e, [Plain(pass)]);
    assert s[1..] == d[1..] + rest;
    assert '&' !in d[1..];
    PlainKept(d[1..], rest, pass);
    Assoc([d[0]], d[1..], Replace(rest, e, [Plain(pass)]));
    assert [d[0]] + d[1..] == d;
  }

  /** One pass undoes its own entity everywhere, and nothing else. */
  lemma {:induction false} OnePass(s: seq<char>, quotes: bool, pass: nat)
    requires pass < 5
    ensures Replace(RenderedAll(s, quotes, pass), Entity(pass), [Plain(pass)]) == RenderedAll(s, quotes, pass + 1)
    decreases |s|
  {
    if s == [] {
      ReplaceStep([], Entity(pass), [Plain(pass)]);
    } else {
      var rest := RenderedAll(s[1..], quotes, pass);
      var p := PassOf(s[0], quotes);
      OnePass(s[1..], quotes, pass);
      if p < 5 && p > pass {
        OtherKept(p, rest, pass);
      } else if p == pass {
        var t := Entity(pass) + rest;
        assert Entity(pass) <= t && t[|Entity(pass)|..] == rest;
        ReplaceStep(t, Entity(pass), [Plain(pass)]);
        assert s[0] == Plain(pass);
      } else {
        assert s[0] != '&';
        PlainKept([s[0]], rest, pass);
      }
    }
  }

  lemma {:induction false} RenderedEnds(s: seq<char>, quotes: bool)
    ensures RenderedAll(s, quotes, 0) == EscapedAll(s, quotes)
    ensures RenderedAll(s, quotes, 5) == s
    decreases |s|
  {
    if s != [] {
      RenderedEnds(s[1..], quotes);
      assert s == [s[0]] + s[1..];
    }
  }

  /** Where the text to be replaced does not occur, nothing is replaced. */
  lemma {:induction false} NothingReplaced(s: seq<char>, what: seq<char>, instead: seq<char>)
    requires what != [] && forall i :: 0 <= i < |s| ==> !(what <= s[i..])
    ensures Replace(s, what, instead) == s
    decreases |s|
  {
    hide Replace;
    ReplaceStep(s, what, instead);
    if s != [] {
      assert s[0..] == s;
      forall i | 0 <= i < |s[1..]|
        ensures !(what <= s[1..][i..])
      {
        assert s[1..][i..] == s[i + 1..];
      }
      NothingReplaced(s[1..], what, instead);
    }
  }

  /** Text in which none of the five entities occurs is not changed by htmlUnescape. */
  lemma NothingToUnescape(s: seq<char>)
    requires forall i :: 0 <= i < |s| ==>
      && !("&amp;" <= s[i..]) && !("&lt;" <= s[i..]) && !("&gt;" <= s[i..])
      && !("&quot;" <= s[i..]) && !("&#039;" <= s[i..])
    ensures HtmlUnescape(s) == s
  {
    hide Replace;
    NothingReplaced(s, "&gt;", ">");
    NothingReplaced(s, "&lt;", "<");
    NothingReplaced(s, "&quot;", "\"");
    NothingReplaced(s, "&#039;", "'");
    NothingReplaced(s, "&amp;", "&");
  }

  /** htmlUnescape(htmlEscape(s, quotes)) == s */
  lemma UnescapeUndoesEscape(s: seq<char>, quotes: bool)
    ensures HtmlUnescape(EscapedAll(s, quotes)) == s
  {
    RenderedEnds(s, quotes);
    OnePass(s, quotes, 0);
    OnePass(s, quotes, 1);
    OnePass(s, quotes, 2);
    OnePass(s, quotes, 3);
    OnePass(s, quotes, 4);
  }
}
