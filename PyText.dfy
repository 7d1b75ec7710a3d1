/** The pieces of Python's `str` and `int` that the scraper relies on, over `seq<char>`:
    `strip()`, `split()`, `split(sep)`, `sep.join(parts)`, `sub in s`, `int(s)` and `str(n)`. */
module PyText {

  datatype Option<+T> = None | Some(value: T)

  /** `c.isspace()`: the characters that `str.split()` and `str.strip()` treat as whitespace. */
  predicate IsSpace(c: char) {
    || ('\t' <= c <= '\r')
    || ('\U{1c}' <= c <= ' ')
    || c == '\U{85}' || c == '\U{a0}' || c == '\U{1680}'
    || ('\U{2000}' <= c <= '\U{200a}')
    || c == '\U{2028}' || c == '\U{2029}' || c == '\U{202f}' || c == '\U{205f}' || c == '\U{3000}'
  }

  predicate NoSpace(s: string) {
    forall i :: 0 <= i < |s| ==> !IsSpace(s[i])
  }

  /** A maximal run of non-whitespace characters, as `str.split()` returns them. */
  predicate IsWord(w: string) {
    w != [] && NoSpace(w)
  }

  // ---------------------------------------------------------------------------
  // strip()

  function StripLeft(s: string): (r: string)
    ensures |r| <= |s| && r == s[|s| - |r|..]
  {
    if s != [] && IsSpace(s[0]) then StripLeft(s[1..]) else s
  }

  lemma {:induction false} StripLeftSpec(s: string)
    ensures var r := StripLeft(s);
      && (r == [] || !IsSpace(r[0]))
      && forall i :: 0 <= i < |s| - |r| ==> IsSpace(s[i])
  {
    if s != [] && IsSpace(s[0]) {
      StripLeftSpec(s[1..]);
      var r := StripLeft(s);
      assert forall i :: 1 <= i < |s| - |r| ==> s[i] == s[1..][i - 1];
    }
  }

  function StripRight(s: string): (r: string)
    ensures |r| <= |s| && r == s[..|r|]
  {
    if s != [] && IsSpace(s[|s| - 1]) then StripRight(s[..|s| - 1]) else s
  }

  lemma {:induction false} StripRightSpec(s: string)
    ensures var r := StripRight(s);
      && (r == [] || !IsSpace(r[|r| - 1]))
      && forall i :: |r| <= i < |s| ==> IsSpace(s[i])
  {
    if s != [] && IsSpace(s[|s| - 1]) {
      StripRightSpec(s[..|s| - 1]);
    }
  }

  /** `s.strip()`: `s` without its leading and trailing whitespace. */
  function Strip(s: string): string {
    StripRight(StripLeft(s))
  }

  /** Stripping leaves non-whitespace at both ends, is empty exactly for all-whitespace text,
      and leaves text that already has non-whitespace ends alone. */
  lemma StripSpec(s: string)
    ensures var r := Strip(s);
      && (r == [] || (!IsSpace(r[0]) && !IsSpace(r[|r| - 1])))
      && (r == [] <==> forall i :: 0 <= i < |s| ==> IsSpace(s[i]))
      && (s == [] || (!IsSpace(s[0]) && !IsSpace(s[|s| - 1])) ==> r == s)
  {
    var l := StripLeft(s);
    var r := StripRight(l);
    StripLeftSpec(s);
    StripRightSpec(l);
    assert r == [] ==> l == [];
    if r != [] {
      assert l[0] == r[0];
    }
  }

  lemma {:induction false} StripLeftPadded(pad: string, s: string)
    requires forall i :: 0 <= i < |pad| ==> IsSpace(pad[i])
    requires s != [] && !IsSpace(s[0])
    ensures StripLeft(pad + s) == s
  {
    if pad == [] {
      assert pad + s == s;
    } else {
      assert (pad + s)[1..] == pad[1..] + s;
      StripLeftPadded(pad[1..], s);
    }
  }

  lemma {:induction false} StripRightPadded(s: string, pad: string)
    requires forall i :: 0 <= i < |pad| ==> IsSpace(pad[i])
    requires s != [] && !IsSpace(s[|s| - 1])
    ensures StripRight(s + pad) == s
  {
    if pad == [] {
      assert s + pad == s;
    } else {
      assert (s + pad)[..|s + pad| - 1] == s + pad[..|pad| - 1];
      StripRightPadded(s, pad[..|pad| - 1]);
    }
  }

  /** Stripping removes exactly the whitespace around text whose ends are not whitespace. */
  lemma StripPadded(pad1: string, s: string, pad2: string)
    requires forall i :: 0 <= i < |pad1| ==> IsSpace(pad1[i])
    requires forall i :: 0 <= i < |pad2| ==> IsSpace(pad2[i])
    requires s != [] && !IsSpace(s[0]) && !IsSpace(s[|s| - 1])
    ensures Strip(pad1 + s + pad2) == s
  {
    assert pad1 + s + pad2 == pad1 + (s + pad2);
    StripLeftPadded(pad1, s + pad2);
    StripRightPadded(s, pad2);
  }

  // ---------------------------------------------------------------------------
  // split()

  /** Length of the leading run of non-whitespace characters of `s`. */
  function WordLen(s: string): (n: nat)
    ensures n <= |s|
    ensures s != [] && !IsSpace(s[0]) ==> n >= 1
  {
    if s == [] || IsSpace(s[0]) then 0 else 1 + WordLen(s[1..])
  }

  lemma {:induction false} WordLenSpec(s: string)
    ensures var n := WordLen(s);
      && (forall i :: 0 <= i < n ==> !IsSpace(s[i]))
      && (n == |s| || IsSpace(s[n]))
  {
    if s != [] && !IsSpace(s[0]) {
      WordLenSpec(s[1..]);
    }
  }

  lemma {:induction false} WordLenUnique(s: string, n: nat)
    requires n <= |s|
    requires forall i :: 0 <= i < n ==> !IsSpace(s[i])
    requires n == |s| || IsSpace(s[n])
    ensures WordLen(s) == n
  {
    if n > 0 {
      WordLenUnique(s[1..], n - 1);
    }
  }

  /** `s.split()`: the words of `s`, in order. */
  function Split(s: string): seq<string>
    decreases |s|
  {
    if s == [] then []
    else if IsSpace(s[0]) then Split(s[1..])
    else
      var n := WordLen(s);
      [s[..n]] + Split(s[n..])
  }

  lemma SplitPieceIsWord(s: string, i: int)
    requires 0 <= i < |Split(s)|
    ensures IsWord(Split(s)[i])
  {
    SplitGivesWords(s);
  }

  /** Every piece `split()` returns is a non-empty run of non-whitespace characters. */
  lemma {:induction false} SplitGivesWords(s: string)
    ensures forall i :: 0 <= i < |Split(s)| ==> IsWord(Split(s)[i])
    decreases |s|
  {
    if s == [] {
    } else if IsSpace(s[0]) {
      SplitGivesWords(s[1..]);
    } else {
      var n := WordLen(s);
      WordLenSpec(s);
      SplitGivesWords(s[n..]);
      assert Split(s) == [s[..n]] + Split(s[n..]);
    }
  }

  /** `sep.join(parts)`. */
  function Join(sep: string, parts: seq<string>): string {
    if parts == [] then []
    else if |parts| == 1 then parts[0]
    else parts[0] + sep + Join(sep, parts[1..])
  }

  /** Splitting words joined by a single blank gives the words back. */
  lemma {:induction false} SplitJoin(ws: seq<string>)
    requires forall i :: 0 <= i < |ws| ==> IsWord(ws[i])
    ensures Split(Join(" ", ws)) == ws
  {
    if ws == [] {
    } else {
      var w := ws[0];
      var s := Join(" ", ws);
      if |ws| == 1 {
        assert s == w && IsWord(w);
        WordLenUnique(s, |w|);
        assert s[..|w|] == w && s[|w|..] == [];
      } else {
        var rest := Join(" ", ws[1..]);
        assert s == w + " " + rest;
        WordLenUnique(s, |w|);
        assert s[..|w|] == w;
        assert s[|w|..][1..] == rest;
        assert Split(s[|w|..]) == Split(rest);
        SplitJoin(ws[1..]);
        assert ws == [w] + ws[1..];
      }
    }
  }

  lemma {:induction false} SplitSkipsLeadingSpace(s: string)
    ensures Split(StripLeft(s)) == Split(s)
    decreases |s|
  {
    if s != [] && IsSpace(s[0]) { SplitSkipsLeadingSpace(s[1..]); }
  }

  /** One step of `Split` on text that starts with a word. */
  lemma SplitStep(s: string)
    requires s != [] && !IsSpace(s[0])
    ensures Split(s) == [s[..WordLen(s)]] + Split(s[WordLen(s)..])
  {
  }

  lemma SplitSkip(s: string)
    requires s != [] && IsSpace(s[0])
    ensures Split(s) == Split(s[1..])
  {
  }

  lemma DropTrailingAfterSpace(s: string)
    requires |s| >= 2 && IsSpace(s[0])
    requires Split(s[1..]) == Split(s[1..][..|s| - 2])
    ensures Split(s) == Split(s[..|s| - 1])
  {
    var t := s[..|s| - 1];
    assert t[1..] == s[1..][..|s| - 2];
    SplitSkip(s);
    SplitSkip(t);
  }

  lemma DropTrailingAfterWord(s: string)
    requires |s| >= 2 && !IsSpace(s[0]) && IsSpace(s[|s| - 1])
    requires var u := s[WordLen(s)..]; u != [] && Split(u) == Split(u[..|u| - 1])
    ensures Split(s) == Split(s[..|s| - 1])
  {
    var t := s[..|s| - 1];
    var n := WordLen(s);
    WordLenSpec(s);
    WordLenUnique(t, n);
    var u := s[n..];
    assert t[n..] == u[..|u| - 1];
    SplitStep(s);
    SplitStep(t);
    assert t[..n] == s[..n];
  }

  lemma {:induction false} SplitDropsTrailingSpace(s: string)
    requires s != [] && IsSpace(s[|s| - 1])
    ensures Split(s) == Split(s[..|s| - 1])
    decreases |s|
  {
    if |s| == 1 {
      SplitSkip(s);
    } else if IsSpace(s[0]) {
      SplitDropsTrailingSpace(s[1..]);
      DropTrailingAfterSpace(s);
    } else {
      WordLenSpec(s);
      SplitDropsTrailingSpace(s[WordLen(s)..]);
      DropTrailingAfterWord(s);
    }
  }

  lemma {:induction false} SplitSkipsTrailingSpace(s: string)
    ensures Split(StripRight(s)) == Split(s)
    decreases |s|
  {
    if s != [] && IsSpace(s[|s| - 1]) {
      SplitDropsTrailingSpace(s);
      SplitSkipsTrailingSpace(s[..|s| - 1]);
    }
  }

  /** `s.strip().split()` is `s.split()`: stripping first changes nothing. */
  lemma SplitOfStrip(s: string)
    ensures Split(Strip(s)) == Split(s)
  {
    SplitSkipsTrailingSpace(StripLeft(s));
    SplitSkipsLeadingSpace(s);
  }

  lemma SplitOfWord(w: string)
    requires IsWord(w)
    ensures Split(w) == [w]
  {
    WordLenUnique(w, |w|);
    SplitStep(w);
    assert w[..|w|] == w;
    assert w[|w|..] == [];
    assert Split(w[|w|..]) == [];
  }

  lemma SplitWholeWordThenWord(a: string, b: string)
    requires IsWord(a) && IsWord(b)
    ensures Split(a + b) == [a + b]
  {
    assert IsWord(a + b) by {
      forall i | 0 <= i < |a + b| ensures !IsSpace((a + b)[i]) {
        if i < |a| { assert (a + b)[i] == a[i]; } else { assert (a + b)[i] == b[i - |a|]; }
      }
    }
    SplitOfWord(a + b);
  }

  /** A first word that stops before the end of `a` is unaffected by what is appended to `a`. */
  lemma FirstWordBeforeAppend(a: string, b: string)
    requires a != [] && !IsSpace(a[0]) && WordLen(a) < |a|
    ensures Split(a + b) == [a[..WordLen(a)]] + Split(a[WordLen(a)..] + b)
  {
    var n := WordLen(a);
    var s := a + b;
    WordLenSpec(a);
    forall i | 0 <= i < n ensures !IsSpace(s[i]) {
      assert s[i] == a[i];
    }
    assert s[n] == a[n];
    WordLenUnique(s, n);
    assert s[n..] == a[n..] + b;
    assert s[..n] == a[..n];
    assert s[0] == a[0];
    SplitStep(s);
  }

  lemma ConsInitLast<T>(h: T, xs: seq<T>, y: T)
    requires xs != []
    ensures ([h] + xs)[..|xs|] + [y] == [h] + (xs[..|xs| - 1] + [y])
    ensures ([h] + xs)[|xs|] == xs[|xs| - 1]
  {
  }

  /** The two facts `SplitAppendWord` states, for one text and one appended word. */
  predicate AppendWordSplits(a: string, b: string) {
    && (a == [] || IsSpace(a[|a| - 1]) ==> Split(a + b) == Split(a) + [b])
    && (a != [] && !IsSpace(a[|a| - 1]) ==>
          Split(a) != [] && Split(a + b) == Split(a)[..|Split(a)| - 1] + [Split(a)[|Split(a)| - 1] + b])
  }

  lemma AppendWordAfterSpace(a: string, b: string)
    requires a != [] && IsSpace(a[0])
    requires AppendWordSplits(a[1..], b)
    ensures AppendWordSplits(a, b)
  {
    var t := a[1..];
    assert (a + b)[1..] == t + b;
    assert (a + b)[0] == a[0];
    SplitSkip(a);
    SplitSkip(a + b);
    assert Split(a) == Split(t);
    assert Split(a + b) == Split(t + b);
    if |a| > 1 {
      assert a[|a| - 1] == t[|t| - 1];
    } else {
      assert t == [];
    }
  }

  /** Putting a word in front keeps both shapes of `AppendWordSplits`. */
  lemma ConsAppendShapes(w: string, su: seq<string>, sub: seq<string>, b: string)
    ensures sub == su + [b] ==> [w] + sub == ([w] + su) + [b]
    ensures su != [] && sub == su[..|su| - 1] + [su[|su| - 1] + b] ==>
      var sa := [w] + su;
      sa != [] && [w] + sub == sa[..|sa| - 1] + [sa[|sa| - 1] + b]
  {
    if su != [] && sub == su[..|su| - 1] + [su[|su| - 1] + b] {
      ConsInitLast(w, su, su[|su| - 1] + b);
    }
  }

  lemma AppendWordAfterFirstWord(a: string, b: string)
    requires a != [] && !IsSpace(a[0]) && WordLen(a) < |a|
    requires AppendWordSplits(a[WordLen(a)..], b)
    ensures AppendWordSplits(a, b)
  {
    var n := WordLen(a);
    var u := a[n..];
    SplitStep(a);
    FirstWordBeforeAppend(a, b);
    var su := Split(u);
    var sub := Split(u + b);
    assert Split(a) == [a[..n]] + su;
    assert Split(a + b) == [a[..n]] + sub;
    assert a[|a| - 1] == u[|u| - 1];
    ConsAppendShapes(a[..n], su, sub, b);
  }

  /** Appending a word to text: it becomes a word of its own after whitespace, else it extends the last word. */
  lemma {:induction false} SplitAppendWord(a: string, b: string)
    requires IsWord(b)
    ensures a == [] || IsSpace(a[|a| - 1]) ==> Split(a + b) == Split(a) + [b]
    ensures a != [] && !IsSpace(a[|a| - 1]) ==>
      Split(a) != [] && Split(a + b) == Split(a)[..|Split(a)| - 1] + [Split(a)[|Split(a)| - 1] + b]
    decreases |a|
  {
    if a == [] {
      assert a + b == b;
      SplitOfWord(b);
    } else if IsSpace(a[0]) {
      SplitAppendWord(a[1..], b);
      AppendWordAfterSpace(a, b);
    } else if WordLen(a) == |a| {
      WordLenSpec(a);
      assert IsWord(a);
      SplitOfWord(a);
      SplitWholeWordThenWord(a, b);
    } else {
      SplitAppendWord(a[WordLen(a)..], b);
      AppendWordAfterFirstWord(a, b);
    }
  }

  lemma {:induction false} JoinNoSpace(sep: string, parts: seq<string>)
    requires NoSpace(sep)
    requires forall i :: 0 <= i < |parts| ==> NoSpace(parts[i])
    ensures NoSpace(Join(sep, parts))
  {
    if |parts| > 1 {
      JoinNoSpace(sep, parts[1..]);
      var rest := Join(sep, parts[1..]);
      assert Join(sep, parts) == parts[0] + sep + rest;
      forall i | 0 <= i < |parts[0] + sep + rest| ensures !IsSpace((parts[0] + sep + rest)[i]) {
        if i < |parts[0]| {
          assert (parts[0] + sep + rest)[i] == parts[0][i];
        } else if i < |parts[0]| + |sep| {
          assert (parts[0] + sep + rest)[i] == sep[i - |parts[0]|];
        } else {
          assert (parts[0] + sep + rest)[i] == rest[i - |parts[0]| - |sep|];
        }
      }
    }
  }

  /** Extending the last part extends the joined text. */
  lemma {:induction false} JoinExtendLast(sep: string, parts: seq<string>, b: string)
    requires parts != []
    ensures Join(sep, parts[..|parts| - 1] + [parts[|parts| - 1] + b]) == Join(sep, parts) + b
  {
    var last := parts[|parts| - 1] + b;
    var ext := parts[..|parts| - 1] + [last];
    if |parts| > 1 {
      var tail := parts[1..];
      JoinExtendLast(sep, tail, b);
      assert tail[|tail| - 1] == parts[|parts| - 1];
      assert ext[1..] == tail[..|tail| - 1] + [last];
      JoinCons(sep, parts[0], ext[1..]);
      assert ext == [parts[0]] + ext[1..];
      JoinCons(sep, parts[0], tail);
      assert parts == [parts[0]] + tail;
    } else {
      assert ext == [last];
    }
  }

  /** Adding a part adds the separator and the part. */
  lemma {:induction false} JoinSnoc(sep: string, parts: seq<string>, b: string)
    requires parts != []
    ensures Join(sep, parts + [b]) == Join(sep, parts) + sep + b
  {
    if |parts| > 1 {
      JoinSnoc(sep, parts[1..], b);
      assert (parts + [b])[1..] == parts[1..] + [b];
    } else {
      assert parts + [b] == [parts[0], b];
    }
  }

  // ---------------------------------------------------------------------------
  // sub in s, s.split(sep)

  predicate OccursAt(s: string, sub: string, i: int) {
    0 <= i && i + |sub| <= |s| && s[i..i + |sub|] == sub
  }

  lemma OccursShift(s: string, sub: string)
    requires s != []
    ensures forall j :: 0 <= j ==> (OccursAt(s[1..], sub, j) <==> OccursAt(s, sub, j + 1))
  {
    forall j | 0 <= j
      ensures OccursAt(s[1..], sub, j) <==> OccursAt(s, sub, j + 1)
    {
      if j + 1 + |sub| <= |s| {
        assert s[1..][j..j + |sub|] == s[j + 1..j + 1 + |sub|];
      }
    }
  }

  /** The index of the first occurrence of `sub` in `s`, if any. */
  function Find(s: string, sub: string): (r: Option<nat>)
    ensures r.Some? ==> r.value + |sub| <= |s|
    decreases |s|
  {
    if |s| < |sub| then None
    else if s[..|sub|] == sub then Some(0)
    else match Find(s[1..], sub)
      case None => None
      case Some(i) => Some(i + 1)
  }

  /** `Find` returns the first occurrence, and `None` exactly when there is none. */
  lemma {:induction false} FindSpec(s: string, sub: string)
    ensures var r := Find(s, sub);
      && (r.Some? ==> OccursAt(s, sub, r.value))
      && (r.Some? ==> forall j :: 0 <= j < r.value ==> !OccursAt(s, sub, j))
      && (r.None? ==> forall j :: !OccursAt(s, sub, j))
    decreases |s|
  {
    if |s| >= |sub| && s[..|sub|] != sub {
      FindSpec(s[1..], sub);
      OccursShift(s, sub);
      forall j | 1 <= j ensures OccursAt(s, sub, j) <==> OccursAt(s[1..], sub, j - 1) {
      }
    }
  }

  lemma FindOccurs(s: string, sub: string)
    ensures Find(s, sub).Some? ==> s[Find(s, sub).value..Find(s, sub).value + |sub|] == sub
  {
    FindSpec(s, sub);
  }

  /** `sub in s`. */
  predicate Contains(s: string, sub: string) {
    Find(s, sub).Some?
  }

  /** `s.endswith(suffix)`. */
  predicate EndsWith(s: string, suffix: string) {
    |suffix| <= |s| && s[|s| - |suffix|..] == suffix
  }

  lemma EndsWithConcat(a: string, b: string)
    ensures EndsWith(a + b, b)
  {
    assert (a + b)[|a|..] == b;
  }

  lemma EndsWithPrepend(a: string, b: string, c: string)
    requires EndsWith(b, c)
    ensures EndsWith(a + b, c)
  {
    assert (a + b)[|a + b| - |c|..] == b[|b| - |c|..];
  }

  lemma ContainsSuffix(s: string, sub: string)
    requires EndsWith(s, sub)
    ensures Contains(s, sub)
  {
    FindSpec(s, sub);
    assert OccursAt(s, sub, |s| - |sub|);
  }

  /** `s.split(sep)`: the pieces of `s` between the non-overlapping occurrences of `sep`, left to right. */
  function SplitOn(s: string, sep: string): (r: seq<string>)
    requires sep != []
    ensures |r| >= 1 && |r[0]| <= |s|
    decreases |s|
  {
    match Find(s, sep)
    case None => [s]
    case Some(i) => [s[..i]] + SplitOn(s[i + |sep|..], sep)
  }

  /** Joining the pieces back with the separator restores the text. */
  lemma {:induction false} JoinSplitOn(s: string, sep: string)
    requires sep != []
    ensures Join(sep, SplitOn(s, sep)) == s
    decreases |s|
  {
    match Find(s, sep)
    case None =>
    case Some(i) =>
      FindOccurs(s, sep);
      var rest := SplitOn(s[i + |sep|..], sep);
      JoinSplitOn(s[i + |sep|..], sep);
      assert SplitOn(s, sep) == [s[..i]] + rest;
      assert Join(sep, SplitOn(s, sep)) == s[..i] + sep + Join(sep, rest);
      assert s == s[..i] + s[i..i + |sep|] + s[i + |sep|..];
  }

  /** The first piece of `s.split(sep)` is the text before the first `sep` (all of `s` when there is none). */
  lemma FirstPiece(s: string, sep: string)
    requires sep != []
    ensures var p := SplitOn(s, sep)[0];
      && p == s[..|p|]
      && !Contains(p, sep)
      && (|SplitOn(s, sep)| == 1 <==> !Contains(s, sep))
      && (|SplitOn(s, sep)| == 1 ==> p == s)
      && (|SplitOn(s, sep)| > 1 ==> OccursAt(s, sep, |p|))
  {
    var p := SplitOn(s, sep)[0];
    FindSpec(s, sep);
    FindSpec(p, sep);
    match Find(s, sep)
    case None =>
    case Some(i) =>
      assert p == s[..i];
      forall j | 0 <= j && j + |sep| <= i ensures !OccursAt(p, sep, j) {
        assert s[..i][j..j + |sep|] == s[j..j + |sep|];
        assert !OccursAt(s, sep, j);
      }
  }

  lemma NoSepOccurs(t: string, c: char)
    requires c !in t
    ensures forall j :: 0 <= j < |t| ==> !OccursAt(t, [c], j)
  {
    forall j | 0 <= j < |t| ensures !OccursAt(t, [c], j) {
      assert t[j..j + 1] == [t[j]];
    }
  }

  /** Text without the separator character splits into itself. */
  lemma SplitOnNoSep(t: string, c: char)
    requires c !in t
    ensures SplitOn(t, [c]) == [t]
  {
    NoSepOccurs(t, c);
    FindSpec(t, [c]);
  }

  /** The first separator after a separator-free prefix ends the first piece. */
  lemma SplitOnAtSep(t: string, c: char, rest: string)
    requires c !in t
    ensures SplitOn(t + [c] + rest, [c]) == [t] + SplitOn(rest, [c])
  {
    var s := t + [c] + rest;
    assert s[|t|..|t| + 1] == [c];
    assert OccursAt(s, [c], |t|);
    forall j | 0 <= j < |t| ensures !OccursAt(s, [c], j) {
      assert s[j..j + 1] == [t[j]];
    }
    FindSpec(s, [c]);
    assert Find(s, [c]) == Some(|t|);
    assert s[..|t|] == t;
    assert s[|t| + 1..] == rest;
  }

  /** With a one-character separator absent from every part, splitting a join gives the parts back. */
  lemma {:induction false} SplitOnJoin(c: char, parts: seq<string>)
    requires parts != []
    requires forall i :: 0 <= i < |parts| ==> c !in parts[i]
    ensures SplitOn(Join([c], parts), [c]) == parts
  {
    var t := parts[0];
    if |parts| == 1 {
      SplitOnNoSep(t, c);
    } else {
      var tail := parts[1..];
      var rest := Join([c], tail);
      assert Join([c], parts) == t + [c] + rest;
      SplitOnAtSep(t, c, rest);
      forall i | 0 <= i < |tail| ensures c !in tail[i] {
        assert tail[i] == parts[i + 1];
      }
      SplitOnJoin(c, tail);
      assert parts == [t] + tail;
    }
  }

  // ---------------------------------------------------------------------------
  // ''.join(s.split(c)) if c in s else s

  /** Reference definition: `s` with every `c` deleted. */
  function Without(s: string, c: char): (r: string)
    ensures |r| <= |s|
  {
    if s == [] then [] else (if s[0] == c then [] else [s[0]]) + Without(s[1..], c)
  }

  lemma {:induction false} WithoutConcat(a: string, b: string, c: char)
    ensures Without(a + b, c) == Without(a, c) + Without(b, c)
  {
    if a != [] {
      assert (a + b)[1..] == a[1..] + b;
      WithoutConcat(a[1..], b, c);
    } else {
      assert a + b == b;
    }
  }

  lemma {:induction false} WithoutAbsent(s: string, c: char)
    requires c !in s
    ensures Without(s, c) == s
  {
    if s != [] {
      assert c !in s[1..];
      WithoutAbsent(s[1..], c);
    }
  }

  lemma NotContainsChar(s: string, c: char)
    ensures Contains(s, [c]) <==> c in s
  {
    FindSpec(s, [c]);
    if c in s {
      var j :| 0 <= j < |s| && s[j] == c;
      assert OccursAt(s, [c], j);
    }
    if Contains(s, [c]) {
      var j := Find(s, [c]).value;
      assert s[j] == s[j..j + 1][0];
    }
  }

  lemma JoinCons(sep: string, a: string, rest: seq<string>)
    requires rest != []
    ensures Join(sep, [a] + rest) == a + sep + Join(sep, rest)
  {
    assert ([a] + rest)[1..] == rest;
  }

  lemma CharOccurs(s: string, c: char, j: int)
    ensures OccursAt(s, [c], j) <==> 0 <= j < |s| && s[j] == c
  {
    if 0 <= j < |s| { assert s[j..j + 1] == [s[j]]; }
  }

  lemma WithoutAt(s: string, c: char, i: nat)
    requires i < |s| && s[i] == c
    ensures Without(s, c) == Without(s[..i], c) + Without(s[i + 1..], c)
  {
    assert s == s[..i] + ([c] + s[i + 1..]);
    WithoutConcat(s[..i], [c] + s[i + 1..], c);
    WithoutConcat([c], s[i + 1..], c);
  }

  lemma {:induction false} JoinEmptySplitOn(s: string, c: char)
    ensures Join("", SplitOn(s, [c])) == Without(s, c)
    decreases |s|
  {
    FindSpec(s, [c]);
    match Find(s, [c])
    case None =>
      NotContainsChar(s, c);
      WithoutAbsent(s, c);
    case Some(i) =>
      var head, tail := s[..i], s[i + 1..];
      JoinEmptySplitOn(tail, c);
      JoinCons("", head, SplitOn(tail, [c]));
      forall j | 0 <= j < |head| ensures head[j] != c {
        CharOccurs(s, c, j);
      }
      WithoutAbsent(head, c);
      CharOccurs(s, c, i);
      WithoutAt(s, c, i);
  }

  /** The source's idiom `''.join(s.split(c)) if c in s else s`. */
  function DropChar(s: string, c: char): string {
    if Contains(s, [c]) then Join("", SplitOn(s, [c])) else s
  }

  /** It deletes every `c`, and only the `c`s. */
  lemma DropCharIsWithout(s: string, c: char)
    ensures DropChar(s, c) == Without(s, c)
  {
    JoinEmptySplitOn(s, c);
    NotContainsChar(s, c);
    if c !in s { WithoutAbsent(s, c); }
  }

  // ---------------------------------------------------------------------------
  // int(s), str(n)

  predicate IsDigit(c: char) { '0' <= c <= '9' }

  predicate AllDigits(s: string) { forall i :: 0 <= i < |s| ==> IsDigit(s[i]) }

  /** The value of a string of decimal digits (0 for the empty string). */
  function DigitsValue(s: string): nat
    requires AllDigits(s)
  {
    if s == [] then 0 else DigitsValue(s[..|s| - 1]) * 10 + (s[|s| - 1] as int - '0' as int)
  }

  function DigitChar(d: nat): (c: char)
    requires d < 10
    ensures IsDigit(c) && c as int - '0' as int == d
  {
    (d + '0' as int) as char
  }

  /** `str(n)` for `n >= 0`: decimal digits, no leading zero. */
  function NatToString(n: nat): (s: string)
    ensures s != [] && AllDigits(s)
    ensures |s| == 1 || s[0] != '0'
  {
    if n < 10 then [DigitChar(n)] else NatToString(n / 10) + [DigitChar(n % 10)]
  }

  lemma {:induction false} NatToStringValue(n: nat)
    ensures DigitsValue(NatToString(n)) == n
  {
    if n >= 10 {
      var s := NatToString(n);
      assert s[..|s| - 1] == NatToString(n / 10);
      NatToStringValue(n / 10);
    }
  }

  /** `int(s)` for base-10 text: surrounding whitespace, an optional sign, then ASCII digits. */
  function ParseInt(s: string): Option<int> {
    var t := Strip(s);
    if |t| >= 2 && (t[0] == '+' || t[0] == '-') && AllDigits(t[1..]) then
      var v: int := DigitsValue(t[1..]);
      Some(if t[0] == '-' then -v else v)
    else if t != [] && AllDigits(t) then Some(DigitsValue(t))
    else None
  }

  lemma ParseIntDigits(s: string)
    requires s != [] && AllDigits(s)
    ensures ParseInt(s) == Some(DigitsValue(s))
  {
    assert !IsSpace(s[0]) && !IsSpace(s[|s| - 1]);
  }

  /** `int(str(n)) == n`. */
  lemma ParseIntNatToString(n: nat)
    ensures ParseInt(NatToString(n)) == Some(n)
  {
    ParseIntDigits(NatToString(n));
    NatToStringValue(n);
  }

  // ---------------------------------------------------------------------------
  // Exact reading of plain decimal text

  function Pow10(k: nat): (p: nat)
    ensures p >= 1
  {
    if k == 0 then 1 else 10 * Pow10(k - 1)
  }

  /** The exact value of plain decimal text `D`, `D.`, `.D` or `D.D`; `None` for anything else. */
  function PlainDecimal(s: string): Option<real> {
    DecimalOfPieces(SplitOn(s, "."))
  }

  function DecimalOfPieces(parts: seq<string>): Option<real> {
    if |parts| == 1 && parts[0] != [] && AllDigits(parts[0]) then
      Some(DigitsValue(parts[0]) as real)
    else if |parts| == 2 && AllDigits(parts[0]) && AllDigits(parts[1]) && (parts[0] != [] || parts[1] != []) then
      Some(DigitsValue(parts[0]) as real + Fraction(parts[1]))
    else None
  }

  /** The value of the digits `f` written after a decimal point. */
  function Fraction(f: string): (r: real)
    requires AllDigits(f)
    ensures 0.0 <= r
  {
    DigitsValue(f) as real / Pow10(|f|) as real
  }

  /** Digits worth zero after the point add nothing. */
  lemma FractionOfZero(f: string)
    requires AllDigits(f) && DigitsValue(f) == 0
    ensures Fraction(f) == 0.0
  {
  }

  lemma DigitsHaveNoDot(s: string)
    requires AllDigits(s)
    ensures '.' !in s
  {
    forall j | 0 <= j < |s| ensures s[j] != '.' {
      assert IsDigit(s[j]);
    }
  }

  /** `w + "." + f` reads as `w` plus `f` tenths-of-a-power. */
  lemma PlainDecimalOfParts(w: string, f: string)
    requires AllDigits(w) && AllDigits(f) && (w != [] || f != [])
    ensures PlainDecimal(w + "." + f) == Some(DigitsValue(w) as real + Fraction(f))
  {
    SplitOnDot(w, f);
    var parts := [w, f];
    assert |parts| == 2 && parts[0] == w && parts[1] == f;
  }

  lemma SplitOnDot(w: string, f: string)
    requires AllDigits(w) && AllDigits(f)
    ensures SplitOn(w + "." + f, ".") == [w, f]
  {
    DigitsHaveNoDot(w);
    DigitsHaveNoDot(f);
    SplitOnJoin('.', [w, f]);
    assert Join(".", [w, f]) == w + "." + f;
  }

  /** Digits with no dot read as that integer. */
  lemma PlainDecimalOfDigits(w: string)
    requires w != [] && AllDigits(w)
    ensures PlainDecimal(w) == Some(DigitsValue(w) as real)
  {
    DigitsHaveNoDot(w);
    SplitOnJoin('.', [w]);
  }
}
