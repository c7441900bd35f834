/**
 * The string handling of scrape.py: Python's str.split(), str.strip(),
 * str.isdigit() and str.replace() on single characters, and `clean_text`
 * built from them.
 */
module Text {

  /** Python's str.isspace() on one character: the separators of str.split() and str.strip(). */
  predicate IsSpace(c: char) {
    || c == ' '
    || '\t' <= c <= '\r'
    || '\U{1C}' <= c <= '\U{1F}'
    || c == '\U{85}' || c == '\U{A0}' || c == '\U{1680}'
    || '\U{2000}' <= c <= '\U{200A}'
    || c == '\U{2028}' || c == '\U{2029}' || c == '\U{202F}' || c == '\U{205F}' || c == '\U{3000}'
  }

  predicate IsDigit(c: char) {
    '0' <= c <= '9'
  }

  /** str.isdigit(): a non-empty string of decimal digits. */
  predicate IsDigits(s: string) {
    |s| > 0 && forall i :: 0 <= i < |s| ==> IsDigit(s[i])
  }

  /** A word of str.split(): non-empty and free of whitespace. */
  predicate IsWord(w: string) {
    |w| > 0 && forall i :: 0 <= i < |w| ==> !IsSpace(w[i])
  }

  /** No two spaces stand next to each other. */
  ghost predicate NoDoubleSpace(s: string) {
    forall i :: 0 <= i < |s| - 1 ==> !(s[i] == ' ' && s[i + 1] == ' ')
  }

  /** Nothing but whitespace (possibly nothing at all). */
  predicate IsBlank(s: string) {
    forall i :: 0 <= i < |s| ==> IsSpace(s[i])
  }

  /**
   * The shape `clean_text` promises: the only whitespace is the plain space,
   * no space leads or trails, and no two spaces are adjacent.
   */
  ghost predicate Normalized(s: string) {
    && (forall i :: 0 <= i < |s| && IsSpace(s[i]) ==> s[i] == ' ')
    && (s != [] ==> s[0] != ' ' && s[|s| - 1] != ' ')
    && NoDoubleSpace(s)
  }

  /** s.replace(c, ""). */
  function RemoveAll(s: string, c: char): (r: string)
    ensures c !in r
    ensures c !in s ==> r == s
    ensures forall x :: x in r ==> x in s
  {
    if s == [] then []
    else (if s[0] == c then [] else [s[0]]) + RemoveAll(s[1..], c)
  }

  /** s.replace(c, d) for single characters. */
  function ReplaceAll(s: string, c: char, d: char): (r: string)
    ensures |r| == |s|
    ensures forall i :: 0 <= i < |s| ==> r[i] == if s[i] == c then d else s[i]
    ensures c !in s ==> r == s
    ensures c != d ==> c !in r
    ensures forall x :: x in r ==> x in s || x == d
  {
    if s == [] then []
    else [if s[0] == c then d else s[0]] + ReplaceAll(s[1..], c, d)
  }

  /** s.lstrip(): the suffix left after the leading whitespace. */
  function TrimStart(s: string): (r: string)
    ensures |r| <= |s|
    ensures r == [] || !IsSpace(r[0])
    ensures forall i :: 0 <= i < |s| - |r| ==> IsSpace(s[i])
  {
    if s != [] && IsSpace(s[0]) then TrimStart(s[1..]) else s
  }

  /** s.rstrip(): the prefix left before the trailing whitespace. */
  function TrimEnd(s: string): (r: string)
    ensures |r| <= |s| && r == s[..|r|]
    ensures r == [] || !IsSpace(r[|r| - 1])
    ensures forall i :: |r| <= i < |s| ==> IsSpace(s[i])
  {
    if s != [] && IsSpace(s[|s| - 1]) then TrimEnd(s[..|s| - 1]) else s
  }

  /** s.strip(). */
  function Strip(s: string): (r: string)
    ensures r == [] || (!IsSpace(r[0]) && !IsSpace(r[|r| - 1]))
  {
    TrimEnd(TrimStart(s))
  }

  /** The longest prefix of s that holds no whitespace. */
  function WordPrefix(s: string): (w: string)
    ensures |w| <= |s| && w == s[..|w|]
    ensures forall i :: 0 <= i < |w| ==> !IsSpace(w[i])
    ensures |w| == |s| || IsSpace(s[|w|])
    ensures s != [] && !IsSpace(s[0]) ==> |w| > 0
  {
    if s == [] || IsSpace(s[0]) then [] else [s[0]] + WordPrefix(s[1..])
  }

  /** s.split() with no separator: the maximal runs of non-whitespace, in order. */
  function Split(s: string): seq<string>
    decreases |s|
  {
    var t := TrimStart(s);
    if t == [] then []
    else
      var w := WordPrefix(t);
      [w] + Split(t[|w|..])
  }

  /** " ".join(words). */
  function Join(words: seq<string>): string {
    if |words| == 0 then ""
    else if |words| == 1 then words[0]
    else words[0] + " " + Join(words[1..])
  }

  /** The characters of s that are not whitespace, in order. */
  function NonBlank(s: string): (r: string)
    ensures forall i :: 0 <= i < |r| ==> !IsSpace(r[i])
  {
    if s == [] then []
    else (if IsSpace(s[0]) then [] else [s[0]]) + NonBlank(s[1..])
  }

  /** The three replace calls of clean_text: drop every '$', then turn '\n' and '\r' into spaces. */
  function Unformat(text: string): string {
    ReplaceAll(ReplaceAll(RemoveAll(text, '$'), '\n', ' '), '\r', ' ')
  }

  /**
   * clean_text: empty text stays empty; otherwise the words of the text,
   * with '$' removed, joined by single spaces.
   */
  function CleanText(text: string): (r: string)
    ensures Normalized(r) && '$' !in r
  {
    if text == "" then ""
    else
      var words := Split(Unformat(text));
      SplitWords(Unformat(text));
      JoinNormalized(words);
      NoDollarAfterClean(text);
      Join(words)
  }

  // ---------------------------------------------------------------------------
  // Lemmas

  lemma AppendAssoc<T>(a: seq<T>, b: seq<T>, c: seq<T>)
    ensures a + (b + c) == (a + b) + c
  {
  }

  /** replace(c, "") works piece by piece on a concatenation... */
  lemma {:induction false} RemoveAllConcat(a: string, b: string, c: char)
    ensures RemoveAll(a + b, c) == RemoveAll(a, c) + RemoveAll(b, c)
  {
    if a == [] {
      assert a + b == b;
    } else {
      assert (a + b)[0] == a[0] && (a + b)[1..] == a[1..] + b;
      RemoveAllConcat(a[1..], b, c);
      AppendAssoc(if a[0] == c then [] else [a[0]], RemoveAll(a[1..], c), RemoveAll(b, c));
    }
  }

  /** ...and on one character, dropping it exactly when it is c. */
  lemma {:induction false} RemoveAllChar(x: char, c: char)
    ensures RemoveAll([x], c) == if x == c then [] else [x]
  {
    assert [x][1..] == [];
  }

  lemma {:induction false} ReplaceAllConcat(a: string, b: string, c: char, d: char)
    ensures ReplaceAll(a + b, c, d) == ReplaceAll(a, c, d) + ReplaceAll(b, c, d)
  {
    if a == [] {
      assert a + b == b;
    } else {
      var head := [if a[0] == c then d else a[0]];
      assert (a + b)[0] == a[0] && (a + b)[1..] == a[1..] + b;
      ReplaceAllConcat(a[1..], b, c, d);
      AppendAssoc(head, ReplaceAll(a[1..], c, d), ReplaceAll(b, c, d));
    }
  }

  /** lstrip() removes exactly the leading whitespace. */
  lemma {:induction false} TrimStartBlank(lead: string, u: string)
    requires IsBlank(lead) && (u == [] || !IsSpace(u[0]))
    ensures TrimStart(lead + u) == u
  {
    if lead == [] {
      assert lead + u == u;
    } else {
      assert (lead + u)[1..] == lead[1..] + u;
      TrimStartBlank(lead[1..], u);
    }
  }

  /** rstrip() removes exactly the trailing whitespace. */
  lemma {:induction false} TrimEndBlank(u: string, trail: string)
    requires IsBlank(trail) && (u == [] || !IsSpace(u[|u| - 1]))
    ensures TrimEnd(u + trail) == u
    decreases |trail|
  {
    if trail == [] {
      assert u + trail == u;
    } else {
      var rest := trail[..|trail| - 1];
      assert (u + trail)[..|u + trail| - 1] == u + rest;
      TrimEndBlank(u, rest);
    }
  }

  /** strip() removes the leading and the trailing whitespace and keeps everything between. */
  lemma {:induction false} StripFrame(lead: string, w: string, trail: string)
    requires IsBlank(lead) && IsBlank(trail)
    requires w == [] || (!IsSpace(w[0]) && !IsSpace(w[|w| - 1]))
    ensures Strip(lead + w + trail) == w
  {
    if w == [] {
      var b := lead + trail;
      assert lead + w + trail == b + [];
      TrimStartBlank(b, []);
    } else {
      assert lead + w + trail == lead + (w + trail);
      TrimStartBlank(lead, w + trail);
      TrimEndBlank(w, trail);
    }
  }

  lemma {:induction false} NonBlankConcat(a: string, b: string)
    ensures NonBlank(a + b) == NonBlank(a) + NonBlank(b)
  {
    if a == [] {
      assert a + b == b;
    } else {
      assert (a + b)[1..] == a[1..] + b;
      NonBlankConcat(a[1..], b);
    }
  }

  lemma {:induction false} NonBlankMember(s: string, c: char)
    requires !IsSpace(c)
    ensures c in NonBlank(s) <==> c in s
  {
    if s != [] {
      assert s == [s[0]] + s[1..];
      NonBlankMember(s[1..], c);
    }
  }

  lemma {:induction false} NonBlankOfWord(w: string)
    requires forall i :: 0 <= i < |w| ==> !IsSpace(w[i])
    ensures NonBlank(w) == w
  {
    if w != [] {
      NonBlankOfWord(w[1..]);
      assert w == [w[0]] + w[1..];
    }
  }

  lemma {:induction false} NonBlankTrimStart(s: string)
    ensures NonBlank(TrimStart(s)) == NonBlank(s)
  {
    if s != [] && IsSpace(s[0]) {
      NonBlankTrimStart(s[1..]);
    }
  }

  lemma {:induction false} NonBlankReplace(s: string, c: char, d: char)
    requires IsSpace(c) && IsSpace(d)
    ensures NonBlank(ReplaceAll(s, c, d)) == NonBlank(s)
  {
    if s != [] {
      NonBlankReplace(s[1..], c, d);
    }
  }

  /** One step of str.split(): the first word, then the split of what follows it. */
  lemma SplitStep(x: string)
    requires TrimStart(x) != []
    ensures var t := TrimStart(x); var w := WordPrefix(t);
      Split(x) == [w] + Split(t[|w|..])
  {
  }

  /** Every element of s.split() is a non-empty run of non-whitespace. */
  lemma {:induction false} SplitWords(s: string)
    ensures forall k :: 0 <= k < |Split(s)| ==> IsWord(Split(s)[k])
    decreases |s|
  {
    var t := TrimStart(s);
    if t != [] {
      var w := WordPrefix(t);
      var rest := Split(t[|w|..]);
      SplitStep(s);
      SplitWords(t[|w|..]);
      assert IsWord(w);
      forall k | 0 < k < |Split(s)| ensures IsWord(Split(s)[k]) {
        assert Split(s)[k] == rest[k - 1];
      }
    }
  }

  lemma JoinCons(w: string, ws: seq<string>)
    ensures Join([w] + ws) == if ws == [] then w else w + " " + Join(ws)
  {
    if ws != [] {
      assert ([w] + ws)[1..] == ws;
    }
  }

  /** " ".join of two non-empty lists: the two joins with one space between. */
  lemma {:induction false} JoinConcat(a: seq<string>, b: seq<string>)
    requires a != [] && b != []
    ensures Join(a + b) == Join(a) + " " + Join(b)
  {
    assert a + b == [a[0]] + (a[1..] + b);
    JoinCons(a[0], a[1..] + b);
    if |a| > 1 {
      JoinConcat(a[1..], b);
      JoinCons(a[0], a[1..]);
      assert [a[0]] + a[1..] == a;
    }
  }

  lemma NonBlankSpaced(a: string, b: string)
    ensures NonBlank(a + " " + b) == NonBlank(a) + NonBlank(b)
  {
    NonBlankConcat(a + " ", b);
    NonBlankConcat(a, " ");
    NonBlankOfSpace();
  }

  lemma NonBlankOfSpace()
    ensures NonBlank(" ") == []
  {
    assert " "[1..] == [];
  }

  /** Splitting and re-joining loses whitespace only. */
  lemma {:induction false} JoinSplitNonBlank(x: string)
    ensures NonBlank(Join(Split(x))) == NonBlank(x)
    decreases |x|
  {
    var t := TrimStart(x);
    NonBlankTrimStart(x);
    if t != [] {
      var w := WordPrefix(t);
      var rest := t[|w|..];
      assert t == w + rest;
      NonBlankConcat(w, rest);
      NonBlankOfWord(w);
      JoinSplitNonBlank(rest);
      var ws := Split(rest);
      SplitStep(x);
      JoinCons(w, ws);
      if ws != [] {
        NonBlankSpaced(w, Join(ws));
      }
    }
  }

  lemma NoDollarAfterClean(text: string)
    ensures '$' !in Join(Split(Unformat(text)))
  {
    var pre := Unformat(text);
    assert '$' !in pre;
    JoinSplitNonBlank(pre);
    NonBlankMember(pre, '$');
    NonBlankMember(Join(Split(pre)), '$');
  }

  /** " ".join of whitespace-free words is normalized, and starts with the first word. */
  lemma {:induction false} JoinNormalized(words: seq<string>)
    requires forall k :: 0 <= k < |words| ==> IsWord(words[k])
    ensures Normalized(Join(words))
    ensures words != [] ==> 0 < |words[0]| <= |Join(words)| && Join(words)[0] == words[0][0]
  {
    if |words| == 1 {
      var w := words[0];
      forall i | 0 <= i < |w| - 1
        ensures !(w[i] == ' ' && w[i + 1] == ' ')
      {
        assert !IsSpace(w[i]);
      }
    } else if |words| > 1 {
      var w, rest := words[0], Join(words[1..]);
      JoinNormalized(words[1..]);
      var s := w + " " + rest;
      assert Join(words) == s;
      forall i | 0 <= i < |s|
        ensures IsSpace(s[i]) ==> s[i] == ' '
      {
        if i < |w| {
          assert s[i] == w[i];
        } else if i > |w| {
          assert s[i] == rest[i - |w| - 1];
        }
      }
      forall i | 0 <= i < |s| - 1
        ensures !(s[i] == ' ' && s[i + 1] == ' ')
      {
        if i < |w| {
          assert s[i] == w[i];
        } else if i == |w| {
          assert s[i + 1] == rest[0];
        } else {
          assert s[i] == rest[i - |w| - 1] && s[i + 1] == rest[i - |w|];
        }
      }
      assert s[|s| - 1] == rest[|rest| - 1];
    }
  }

  /** A suffix of a normalized string that starts at a visible character is normalized. */
  lemma NormalizedSuffix(t: string, k: nat)
    requires Normalized(t) && k < |t| && !IsSpace(t[k])
    ensures Normalized(t[k..])
  {
    var u := t[k..];
    forall i | 0 <= i < |u|
      ensures IsSpace(u[i]) ==> u[i] == ' '
    {
      assert u[i] == t[k + i];
    }
    forall i | 0 <= i < |u| - 1
      ensures !(u[i] == ' ' && u[i + 1] == ' ')
    {
      assert u[i] == t[k + i] && u[i + 1] == t[k + i + 1];
    }
  }

  /** A word followed by whitespace (or by nothing) is the word prefix of the whole. */
  lemma {:induction false} WordPrefixOf(w: string, rest: string)
    requires forall i :: 0 <= i < |w| ==> !IsSpace(w[i])
    requires rest == [] || IsSpace(rest[0])
    ensures WordPrefix(w + rest) == w
  {
    if w == [] {
      assert w + rest == rest;
    } else {
      assert (w + rest)[1..] == w[1..] + rest;
      WordPrefixOf(w[1..], rest);
    }
  }

  lemma SplitWord(w: string)
    requires IsWord(w)
    ensures Split(w) == [w]
  {
    assert TrimStart(w) == w;
    WordPrefixOf(w, []);
    assert w + [] == w;
    assert w[|w|..] == [];
  }

  /** A leading whitespace character is skipped. */
  lemma {:induction false} SplitDropSpace(s: string)
    requires s != [] && IsSpace(s[0])
    ensures Split(s) == Split(s[1..])
  {
  }

  /** Leading whitespace does not change the words. */
  lemma {:induction false} SplitSkip(b: string, y: string)
    requires IsBlank(b)
    ensures Split(b + y) == Split(y)
  {
    if b != [] {
      assert (b + y)[1..] == b[1..] + y;
      SplitDropSpace(b + y);
      SplitSkip(b[1..], y);
    } else {
      assert b + y == y;
    }
  }

  /** A string has no words exactly when it is all whitespace. */
  lemma {:induction false} SplitBlank(s: string)
    ensures Split(s) == [] <==> IsBlank(s)
  {
    if IsBlank(s) {
      SplitSkip(s, []);
      assert s + [] == s;
    }
  }

  /**
   * A non-empty run of whitespace separates words: the words of x + sep + y
   * are those of x followed by those of y, so no word spans the run.
   */
  lemma {:induction false} SplitSeparated(x: string, sep: string, y: string)
    requires sep != [] && IsBlank(sep)
    ensures Split(x + sep + y) == Split(x) + Split(y)
    decreases |x|
  {
    var s := x + sep + y;
    if x == [] {
      assert s == sep + y;
      SplitSkip(sep, y);
    } else if IsSpace(x[0]) {
      assert s[1..] == x[1..] + sep + y;
      SplitDropSpace(x);
      SplitDropSpace(s);
      SplitSeparated(x[1..], sep, y);
    } else {
      var w := WordPrefix(x);
      var rest := x[|w|..];
      var tail := rest + sep + y;
      assert x == w + rest && IsWord(w) && (rest == [] || IsSpace(rest[0]));
      assert IsSpace(tail[0]) by {
        if rest == [] {
          assert tail[0] == sep[0];
        } else {
          assert tail[0] == rest[0];
        }
      }
      AppendAssoc(w, rest + sep, y);
      AppendAssoc(w, rest, sep);
      SplitSeparated(rest, sep, y);
      SplitAfterWord(w, rest, tail, y);
    }
  }


  /** The step of SplitSeparated past a leading word. */
  lemma {:induction false} SplitAfterWord(w: string, rest: string, tail: string, y: string)
    requires IsWord(w) && (rest == [] || IsSpace(rest[0])) && tail != [] && IsSpace(tail[0])
    requires Split(tail) == Split(rest) + Split(y)
    ensures Split(w + tail) == Split(w + rest) + Split(y)
  {
    SplitWordThen(w, rest);
    SplitWordThen(w, tail);
    AppendAssoc([w], Split(rest), Split(y));
  }

  /** A word followed by whitespace, or by nothing, is the first word. */
  lemma {:induction false} SplitWordThen(w: string, tail: string)
    requires IsWord(w) && (tail == [] || IsSpace(tail[0]))
    ensures Split(w + tail) == [w] + Split(tail)
  {
    var t := w + tail;
    assert t[0] == w[0];
    WordPrefixOf(w, tail);
    assert t[|w|..] == tail;
    SplitStep(t);
  }

  /** A normalized string is exactly the space-join of its words. */
  lemma {:induction false} JoinSplitNormalized(t: string)
    requires Normalized(t)
    ensures Join(Split(t)) == t
    decreases |t|
  {
    if t != [] {
      var w := WordPrefix(t);
      assert |w| > 0;
      if |w| == |t| {
        assert w == t;
        SplitWord(t);
      } else {
        var n := |w|;
        assert t[n] == ' ' && n < |t| - 1;
        assert t[n + 1] != ' ' by {
          assert 0 <= n < |t| - 1;
        }
        var u := t[n + 1..];
        assert t == w + " " + u;
        NormalizedSuffix(t, n + 1);
        JoinSplitNormalized(u);
        SplitSeparated(w, " ", u);
        SplitWord(w);
        JoinCons(w, Split(u));
      }
    }
  }

  /**
   * What clean_text promises: empty text gives "", and the result holds no
   * '$', '\n' or '\r', no leading or trailing space, no two adjacent spaces,
   * and no whitespace other than the plain space.
   */
  lemma CleanTextNormalized(text: string)
    ensures text == "" ==> CleanText(text) == ""
    ensures var r := CleanText(text);
      && '$' !in r && '\n' !in r && '\r' !in r
      && (r != "" ==> r[0] != ' ' && r[|r| - 1] != ' ')
      && NoDoubleSpace(r)
      && Normalized(r)
  {
    NormalizedHasNoBreaks(CleanText(text));
  }

  lemma NormalizedHasNoBreaks(s: string)
    requires Normalized(s)
    ensures '\n' !in s && '\r' !in s
  {
    forall i | 0 <= i < |s|
      ensures s[i] != '\n' && s[i] != '\r'
    {
      if IsSpace(s[i]) {
        assert s[i] == ' ';
      }
    }
  }

  /** The strings clean_text leaves unchanged are exactly the normalized ones without '$'. */
  lemma CleanTextFixpoints(t: string)
    ensures CleanText(t) == t <==> Normalized(t) && '$' !in t
  {
    CleanTextNormalized(t);
    if Normalized(t) && '$' !in t && t != "" {
      assert '\n' !in t by {
        if '\n' in t {
          var i :| 0 <= i < |t| && t[i] == '\n';
          assert IsSpace(t[i]);
        }
      }
      assert '\r' !in t by {
        if '\r' in t {
          var i :| 0 <= i < |t| && t[i] == '\r';
          assert IsSpace(t[i]);
        }
      }
      assert Unformat(t) == t;
      JoinSplitNormalized(t);
    }
  }

  /** clean_text is idempotent. */
  lemma CleanTextIdempotent(s: string)
    ensures CleanText(CleanText(s)) == CleanText(s)
  {
    CleanTextNormalized(s);
    CleanTextFixpoints(CleanText(s));
  }

  /** clean_text keeps every visible character other than '$', in order: only whitespace is reshaped. */
  lemma CleanTextKeepsVisible(text: string)
    ensures NonBlank(CleanText(text)) == NonBlank(RemoveAll(text, '$'))
  {
    if text != "" {
      var a := RemoveAll(text, '$');
      var b := ReplaceAll(a, '\n', ' ');
      NonBlankReplace(a, '\n', ' ');
      NonBlankReplace(b, '\r', ' ');
      JoinSplitNonBlank(Unformat(text));
    }
  }

  /** The three replace calls act on each piece of a concatenation separately. */
  lemma {:induction false} UnformatConcat(a: string, b: string)
    ensures Unformat(a + b) == Unformat(a) + Unformat(b)
  {
    var a1, b1 := RemoveAll(a, '$'), RemoveAll(b, '$');
    var a2, b2 := ReplaceAll(a1, '\n', ' '), ReplaceAll(b1, '\n', ' ');
    RemoveAllConcat(a, b, '$');
    ReplaceAllConcat(a1, b1, '\n', ' ');
    ReplaceAllConcat(a2, b2, '\r', ' ');
  }

  /** Whitespace stays whitespace of the same length under the three replace calls. */
  lemma {:induction false} UnformatBlank(b: string)
    requires IsBlank(b)
    ensures |Unformat(b)| == |b| && IsBlank(Unformat(b))
  {
    assert RemoveAll(b, '$') == b;
    var m, u := ReplaceAll(b, '\n', ' '), Unformat(b);
    forall i | 0 <= i < |u| ensures IsSpace(u[i]) {
      assert IsSpace(m[i]);
    }
  }

  /** clean_text of any text, empty or not, is the space-join of its words, and "" exactly when it has none. */
  lemma {:induction false} CleanTextWords(text: string)
    ensures CleanText(text) == Join(Split(Unformat(text)))
    ensures CleanText(text) == "" <==> Split(Unformat(text)) == []
  {
    var words := Split(Unformat(text));
    if text == "" {
      assert Unformat(text) == "";
    }
    if words != [] {
      SplitWords(Unformat(text));
      JoinNormalized(words);
    }
  }

  /**
   * A run of whitespace between two pieces of text becomes exactly one space:
   * the two cleaned pieces joined by " ", or the one that is not empty.
   */
  lemma CleanTextSeparated(x: string, sep: string, y: string)
    requires sep != [] && IsBlank(sep)
    ensures CleanText(x + sep + y) ==
      if CleanText(x) == "" then CleanText(y)
      else if CleanText(y) == "" then CleanText(x)
      else CleanText(x) + " " + CleanText(y)
  {
    UnformatConcat(x + sep, y);
    UnformatConcat(x, sep);
    UnformatBlank(sep);
    SplitSeparated(Unformat(x), Unformat(sep), Unformat(y));
    CleanTextWords(x);
    CleanTextWords(y);
    CleanTextWords(x + sep + y);
    var a, b := Split(Unformat(x)), Split(Unformat(y));
    if a == [] {
      assert a + b == b;
    } else if b == [] {
      assert a + b == a;
    } else {
      JoinConcat(a, b);
    }
  }
}
