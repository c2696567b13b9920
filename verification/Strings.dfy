/** Python's split and join. */
module Strings {
  /** sep.join(parts) */
  function Join(parts: seq<string>, sep: string): string {
    if parts == [] then ""
    else if |parts| == 1 then parts[0]
    else Join(parts[..|parts| - 1], sep) + sep + parts[|parts| - 1]
  }

  /** text.split(sep) */
  function Split(text: string, sep: char): (parts: seq<string>)
    ensures parts != [] && forall k :: 0 <= k < |parts| ==> sep !in parts[k]
  {
    if text == "" then [""]
    else
      var parts, c := Split(text[..|text| - 1], sep), text[|text| - 1];
      if c == sep then parts + [""] else parts[..|parts| - 1] + [parts[|parts| - 1] + [c]]
  }

  lemma JoinSnoc(parts: seq<string>, sep: string, p: string)
    ensures Join(parts + [p], sep) == if parts == [] then p else Join(parts, sep) + sep + p
  {
    assert (parts + [p])[..|parts|] == parts;
  }

  lemma JoinOne(sep: string, p: string)
    ensures Join([p], sep) == p
  {
  }

  lemma Associates<T>(a: seq<T>, b: seq<T>, c: seq<T>)
    ensures a + (b + c) == (a + b) + c
  {
  }

  lemma LastPartGrows(parts: seq<string>, sep: string, c: char)
    requires parts != []
    ensures Join(parts[..|parts| - 1] + [parts[|parts| - 1] + [c]], sep) == Join(parts, sep) + [c]
  {
    var front, last := parts[..|parts| - 1], parts[|parts| - 1];
    assert parts == front + [last];
    JoinSnoc(front, sep, last);
    JoinSnoc(front, sep, last + [c]);
    hide Join;
    Associates(Join(front, sep) + sep, last, [c]);
  }

  lemma {:induction false} SplitRejoins(text: string, sep: char)
    ensures Join(Split(text, sep), [sep]) == text
  {
    hide Join;
    if text == "" {
      JoinOne([sep], "");
    } else {
      var before, c := text[..|text| - 1], text[|text| - 1];
      SplitRejoins(before, sep);
      var parts := Split(before, sep);
      if c == sep {
        JoinSnoc(parts, [sep], "");
        assert text == before + [sep] + "";
      } else {
        LastPartGrows(parts, [sep], c);
        assert text == before + [c];
      }
    }
  }

  lemma SplitSnoc(text: string, c: char, sep: char)
    ensures Split(text + [c], sep) ==
            var parts := Split(text, sep);
            if c == sep then parts + [""] else parts[..|parts| - 1] + [parts[|parts| - 1] + [c]]
  {
    assert (text + [c])[..|text|] == text;
  }

  /** Text without the separator extends the last part. */
  lemma {:induction false} SplitExtends(text: string, more: string, sep: char)
    requires sep !in more
    ensures Split(text + more, sep) ==
            var parts := Split(text, sep);
            parts[..|parts| - 1] + [parts[|parts| - 1] + more]
  {
    hide Split;
    var parts := Split(text, sep);
    var init, last := parts[..|parts| - 1], parts[|parts| - 1];
    if more == "" {
      assert text + more == text && last + more == last;
    } else {
      var front, c := more[..|more| - 1], more[|more| - 1];
      SplitExtends(text, front, sep);
      SplitSnoc(text + front, c, sep);
      assert text + more == (text + front) + [c] && c != sep;
      var grown := init + [last + front];
      assert grown[..|grown| - 1] == init && grown[|grown| - 1] == last + front;
      assert (last + front) + [c] == last + more;
    }
  }

  /** Parts without the separator are recovered from their join. */
  lemma {:induction false} SplitInverts(parts: seq<string>, sep: char)
    requires parts != [] && forall k :: 0 <= k < |parts| ==> sep !in parts[k]
    ensures Split(Join(parts, [sep]), sep) == parts
  {
    hide Join;
    var front, last := parts[..|parts| - 1], parts[|parts| - 1];
    assert parts == front + [last];
    JoinSnoc(front, [sep], last);
    if front == [] {
      SplitExtends("", last, sep);
      assert "" + last == last;
    } else {
      SplitInverts(front, sep);
      SplitSnoc(Join(front, [sep]), sep, sep);
      SplitExtends(Join(front, [sep]) + [sep], last, sep);
      assert (front + [""])[..|front|] == front && "" + last == last;
    }
  }

  // ----- The order of strings -----

  /** Python's <= on strings */
  predicate Leq(s: string, t: string) {
    s == "" || (t != "" && (s[0] < t[0] || (s[0] == t[0] && Leq(s[1..], t[1..]))))
  }

  /** A beginning comes first; otherwise the first different character decides. */
  lemma {:induction false} LeqMeans(s: string, t: string)
    ensures Leq(s, t) <==> s <= t || exists k :: DiffersAt(s, t, k) && s[k] < t[k]
  {
    if s != "" && t != "" {
      LeqMeans(s[1..], t[1..]);
      assert s == [s[0]] + s[1..] && t == [t[0]] + t[1..];
      forall k | 0 < k
        ensures DiffersAt(s, t, k) <==> s[0] == t[0] && DiffersAt(s[1..], t[1..], k - 1)
      {
        if DiffersAt(s, t, k) {
          assert s[..k][0] == t[..k][0];
          assert s[1..][..k - 1] == s[..k][1..] && t[1..][..k - 1] == t[..k][1..];
        }
        if s[0] == t[0] && DiffersAt(s[1..], t[1..], k - 1) {
          assert s[..k] == [s[0]] + s[1..][..k - 1] && t[..k] == [t[0]] + t[1..][..k - 1];
        }
      }
      if k :| DiffersAt(s[1..], t[1..], k) && s[1..][k] < t[1..][k] && s[0] == t[0] {
        assert DiffersAt(s, t, k + 1);
      }
      if s[0] < t[0] {
        assert DiffersAt(s, t, 0);
      }
    }
  }

  ghost predicate DiffersAt(s: string, t: string, k: int) {
    0 <= k < |s| && k < |t| && s[..k] == t[..k] && s[k] != t[k]
  }

  lemma {:induction false} LeqIsTotal(s: string, t: string)
    ensures Leq(s, t) || Leq(t, s)
    ensures Leq(s, t) && Leq(t, s) ==> s == t
  {
    if s != "" && t != "" {
      LeqIsTotal(s[1..], t[1..]);
      assert s == [s[0]] + s[1..] && t == [t[0]] + t[1..];
    }
  }

  lemma {:induction false} LeqIsTransitive(s: string, t: string, u: string)
    requires Leq(s, t) && Leq(t, u)
    ensures Leq(s, u)
  {
    if s != "" && s[0] == t[0] == u[0] {
      LeqIsTransitive(s[1..], t[1..], u[1..]);
    }
  }
}
