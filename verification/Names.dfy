/** Object paths, interface names and member names (dbus.go). */
module Names {
  import opened Bytes

  predicate IsMemberChar(c: byte)
  {
    '0' <= c <= '9' || 'A' <= c <= 'Z' || 'a' <= c <= 'z' || c == '_'
  }

  predicate StartsWithDigit(s: bytes)
  {
    s != [] && '0' <= s[0] <= '9'
  }

  /** strings.Split by one separator byte. */
  function SplitAt(s: bytes, sep: byte): (parts: seq<bytes>)
    ensures parts != []
  {
    if s == [] then [[]]
    else
      var rest := SplitAt(s[1..], sep);
      if s[0] == sep then [[]] + rest else [[s[0]] + rest[0]] + rest[1..]
  }

  predicate IsName(s: bytes)
  {
    s != [] && forall i :: 0 <= i < |s| ==> IsMemberChar(s[i])
  }

  predicate AreNames(parts: seq<bytes>)
  {
    forall i :: 0 <= i < |parts| ==> IsName(parts[i])
  }

  predicate AreWords(parts: seq<bytes>)
  {
    AreNames(parts) && forall i :: 0 <= i < |parts| ==> !StartsWithDigit(parts[i])
  }

  /** ObjectPath.IsValid. */
  predicate IsValidPath(s: bytes)
  {
    && s != [] && s[0] == '/'
    && (s[|s| - 1] == '/' ==> |s| == 1)
    && (s != "/" ==> AreNames(SplitAt(s[1..], '/')))
  }

  predicate IsValidInterface(s: bytes)
  {
    && 0 < |s| <= 255 && s[0] != '.'
    && |SplitAt(s, '.')| >= 2 && AreWords(SplitAt(s, '.'))
  }

  predicate IsValidMember(s: bytes)
  {
    0 < |s| <= 255 && '.' !in s && !StartsWithDigit(s) && IsName(s)
  }

  // ---------------------------------------------------------------- as written

  method CheckName(v: bytes) returns (ok: bool)
    ensures ok == IsName(v)
  {
    if |v| == 0 {
      return false;
    }
    var i := 0;
    while i < |v|
      invariant 0 <= i <= |v| && forall k :: 0 <= k < i ==> IsMemberChar(v[k])
    {
      if !IsMemberChar(v[i]) {
        return false;
      }
      i := i + 1;
    }
    ok := true;
  }

  method CheckPath(s: bytes) returns (ok: bool)
    ensures ok == IsValidPath(s)
  {
    if |s| == 0 {
      return false;
    }
    if s[0] != '/' {
      return false;
    }
    if s[|s| - 1] == '/' && |s| != 1 {
      return false;
    }
    if s == "/" {
      return true;
    }
    var split := SplitAt(s[1..], '/');
    var i := 0;
    while i < |split|
      invariant 0 <= i <= |split| && forall k :: 0 <= k < i ==> IsName(split[k])
    {
      ok := CheckName(split[i]);
      if !ok {
        return;
      }
      i := i + 1;
    }
    ok := true;
  }

  method CheckInterface(s: bytes) returns (ok: bool)
    ensures ok == IsValidInterface(s)
  {
    if |s| == 0 || |s| > 255 || s[0] == '.' {
      return false;
    }
    var elem := SplitAt(s, '.');
    if |elem| < 2 {
      return false;
    }
    var i := 0;
    while i < |elem|
      invariant 0 <= i <= |elem| && forall k :: 0 <= k < i ==> IsName(elem[k]) && !StartsWithDigit(elem[k])
    {
      if |elem[i]| == 0 {
        return false;
      }
      if '0' <= elem[i][0] <= '9' {
        return false;
      }
      ok := CheckName(elem[i]);
      if !ok {
        return;
      }
      i := i + 1;
    }
    ok := true;
  }

  method CheckMember(s: bytes) returns (ok: bool)
    ensures ok == IsValidMember(s)
  {
    if |s| == 0 || |s| > 255 {
      return false;
    }
    if '.' in s {
      return false;
    }
    if '0' <= s[0] <= '9' {
      return false;
    }
    ok := CheckName(s);
  }

  // ---------------------------------------------------------------- the grammar of names

  /** parts with the separator between them. */
  function Join(parts: seq<bytes>, sep: byte): bytes
    decreases |parts|
  {
    if parts == [] then []
    else if |parts| == 1 then parts[0]
    else parts[0] + ([sep] + Join(parts[1..], sep))
  }

  lemma {:induction false} JoinSplit(s: bytes, sep: byte)
    ensures Join(SplitAt(s, sep), sep) == s
    decreases |s|
  {
    if s == [] {
    } else {
      var rest := SplitAt(s[1..], sep);
      JoinSplit(s[1..], sep);
      if s[0] == sep {
        assert ([[]] + rest)[1..] == rest;
        assert [] + ([sep] + s[1..]) == s;
      } else {
        var parts := [[s[0]] + rest[0]] + rest[1..];
        assert parts[1..] == rest[1..];
        assert s == [s[0]] + s[1..];
        if |rest| > 1 {
          Assoc([s[0]], rest[0], [sep] + Join(rest[1..], sep));
        }
      }
    }
  }

  lemma {:induction false} SplitOne(w: bytes, sep: byte, rest: bytes)
    requires sep !in w
    ensures SplitAt(w + ([sep] + rest), sep) == [w] + SplitAt(rest, sep)
    ensures SplitAt(w, sep) == [w]
    decreases |w|
  {
    if w == [] {
      assert [] + ([sep] + rest) == [sep] + rest && ([sep] + rest)[1..] == rest;
    } else {
      SplitOne(w[1..], sep, rest);
      var s := w + ([sep] + rest);
      assert s[1..] == w[1..] + ([sep] + rest);
      assert [w[0]] + w[1..] == w;
      assert ([w[1..]] + SplitAt(rest, sep))[1..] == SplitAt(rest, sep);
    }
  }

  lemma {:induction false} SplitJoin(parts: seq<bytes>, sep: byte)
    requires parts != [] && forall i :: 0 <= i < |parts| ==> sep !in parts[i]
    ensures SplitAt(Join(parts, sep), sep) == parts
    decreases |parts|
  {
    if |parts| == 1 {
      SplitOne(parts[0], sep, []);
    } else {
      SplitJoin(parts[1..], sep);
      SplitOne(parts[0], sep, Join(parts[1..], sep));
    }
  }

  lemma NamesHaveNo(parts: seq<bytes>, sep: byte)
    requires AreNames(parts) && !IsMemberChar(sep)
    ensures forall i :: 0 <= i < |parts| ==> sep !in parts[i]
  {
  }

  /** A path is the root or a sequence of names, each behind a slash. */
  lemma PathGrammar(s: bytes)
    ensures IsValidPath(s) <==> s == "/" || exists parts :: parts != [] && AreNames(parts) && s == ['/'] + Join(parts, '/')
  {
    if IsValidPath(s) && s != "/" {
      var parts := SplitAt(s[1..], '/');
      JoinSplit(s[1..], '/');
      assert parts != [] && AreNames(parts) && s == ['/'] + Join(parts, '/');
    }
    forall parts | parts != [] && AreNames(parts) && s == ['/'] + Join(parts, '/')
      ensures IsValidPath(s)
    {
      NamesHaveNo(parts, '/');
      SplitJoin(parts, '/');
      assert s[1..] == Join(parts, '/');
      JoinEnds(parts, '/');
    }
  }

  /** A text of names ends in a member character. */
  lemma {:induction false} JoinEnds(parts: seq<bytes>, sep: byte)
    requires parts != [] && AreNames(parts)
    ensures var s := Join(parts, sep); s != [] && IsMemberChar(s[0]) && IsMemberChar(s[|s| - 1])
    decreases |parts|
  {
    if |parts| <= 1 {
    } else {
      JoinEnds(parts[1..], sep);
    }
  }

  /** An interface or error name is at least two words with dots between them, in 255 bytes. */
  lemma InterfaceGrammar(s: bytes)
    ensures IsValidInterface(s) <==> |s| <= 255 && exists parts :: |parts| >= 2 && AreWords(parts) && s == Join(parts, '.')
  {
    if IsValidInterface(s) {
      var parts := SplitAt(s, '.');
      JoinSplit(s, '.');
      assert |parts| >= 2 && AreWords(parts) && s == Join(parts, '.');
    }
    forall parts | |s| <= 255 && |parts| >= 2 && AreWords(parts) && s == Join(parts, '.')
      ensures IsValidInterface(s)
    {
      NamesHaveNo(parts, '.');
      SplitJoin(parts, '.');
      JoinEnds(parts, '.');
    }
  }
}
