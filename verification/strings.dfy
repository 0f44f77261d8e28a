/** Option type shared by every module of the model. */
module Wrappers {
  datatype Option<+T> = None | Some(value: T)
}

/** Slicing facts, stated once for any element type so they stay cheap. */
module Seqs {
  lemma PrefixSnoc<T>(s: seq<T>, j: nat)
    requires j < |s|
    ensures s[..j + 1] == s[..j] + [s[j]]
  {
  }

  lemma PrefixAll<T>(s: seq<T>)
    ensures s[..|s|] == s
  {
  }

  lemma ConsAppend<T>(a: seq<T>, b: seq<T>)
    ensures a == [] ==> a + b == b
    ensures a != [] ==> (a + b)[0] == a[0] && (a + b)[1..] == a[1..] + b
  {
  }

  lemma UpdateLast<T>(a: seq<T>, x: T, y: T)
    ensures (a + [x])[|a| := y] == a + [y]
  {
  }

  lemma AppendAssoc<T>(a: seq<T>, b: seq<T>, c: seq<T>)
    ensures (a + b) + c == a + (b + c)
  {
  }

  lemma SplitAt<T>(s: seq<T>, j: nat)
    requires j <= |s|
    ensures s == s[..j] + s[j..]
  {
  }
}

/**
 * The few QString operations the catalog relies on, over `seq<char>`.
 * Case folding is ASCII only; whitespace follows QChar::isSpace for
 * `simplified()` and the regular-expression class `\s` for the patterns.
 */
module Strings {

  /** QChar::isSpace: ASCII tab..carriage return, space, NEL, NBSP and the Unicode space separators. */
  predicate IsSpace(c: char)
  {
    c == ' ' || ('\t' <= c <= '\r') || c == '\U{85}' || c == '\U{A0}' || c == '\U{1680}'
    || ('\U{2000}' <= c <= '\U{200A}') || c == '\U{2028}' || c == '\U{2029}'
    || c == '\U{202F}' || c == '\U{205F}' || c == '\U{3000}'
  }

  /** The regular-expression class `\s` without Unicode properties: tab..carriage return and space. */
  predicate IsRegexSpace(c: char)
  {
    c == ' ' || ('\t' <= c <= '\r')
  }

  function Lower(c: char): char
  {
    if 'A' <= c <= 'Z' then (c as int + 32) as char else c
  }

  function ToLower(s: string): (r: string)
    ensures |r| == |s|
    ensures forall i :: 0 <= i < |s| ==> r[i] == Lower(s[i])
  {
    seq(|s|, i requires 0 <= i < |s| => Lower(s[i]))
  }

  /** QString::compare(a, b, Qt::CaseInsensitive) == 0, with ASCII folding. */
  predicate EqualsIgnoreCase(a: string, b: string)
  {
    ToLower(a) == ToLower(b)
  }

  predicate StartsWith(s: string, prefix: string)
  {
    |prefix| <= |s| && s[..|prefix|] == prefix
  }

  /** `t` occurs somewhere in `s`. */
  predicate Contains(s: string, t: string)
    decreases |s|
  {
    StartsWith(s, t) || (|s| > 0 && Contains(s[1..], t))
  }

  /** Unanchored, case-insensitive match of the literal `t` inside `s`. */
  predicate ContainsIgnoreCase(s: string, t: string)
  {
    Contains(ToLower(s), ToLower(t))
  }

  /**
   * A search term whose characters are all literal in a regular expression:
   * no `\ ^ $ . | ? * + ( ) [ ] { }`. For such a term the unanchored regex
   * match is plain substring search.
   */
  predicate NoMeta(s: string)
  {
    forall i :: 0 <= i < |s| ==> s[i] !in "\\^$.|?*+()[]{}"
  }

  /** QString::replace(QChar a, b) for single characters. */
  function Replace(s: string, a: char, b: char): (r: string)
    ensures |r| == |s|
    ensures forall i :: 0 <= i < |s| ==> r[i] == (if s[i] == a then b else s[i])
  {
    seq(|s|, i requires 0 <= i < |s| => if s[i] == a then b else s[i])
  }

  /** Drops leading QChar::isSpace characters. */
  function TrimLeft(s: string): (r: string)
    ensures |r| <= |s|
    ensures r == [] || !IsSpace(r[0])
    ensures |s| > 0 && IsSpace(s[0]) ==> |r| < |s|
  {
    if s != [] && IsSpace(s[0]) then TrimLeft(s[1..]) else s
  }

  /** Collapses each whitespace run to one space and drops a trailing run. */
  function Collapse(s: string): string
    decreases |s|
  {
    if s == [] then []
    else if !IsSpace(s[0]) then [s[0]] + Collapse(s[1..])
    else
      var rest := TrimLeft(s);
      if rest == [] then [] else [' '] + Collapse(rest)
  }

  /** QString::simplified(). */
  function Simplified(s: string): string
  {
    Collapse(TrimLeft(s))
  }

  /** The XML-safe id of a display name: simplified, then every space replaced by `_`. */
  function Normalize(name: string): string
  {
    Replace(Simplified(name), ' ', '_')
  }

  lemma {:induction false} StartsWithSelf(s: string)
    ensures StartsWith(s, s)
  {
  }

  lemma ContainsIgnoreCaseSelf(s: string)
    ensures ContainsIgnoreCase(s, s)
  {
    StartsWithSelf(ToLower(s));
  }

  /** A string without any whitespace is its own simplified form. */
  lemma {:induction false} SimplifiedNoSpace(s: string)
    requires forall i :: 0 <= i < |s| ==> !IsSpace(s[i])
    ensures TrimLeft(s) == s && Collapse(s) == s && Simplified(s) == s
  {
    if s != [] {
      SimplifiedNoSpace(s[1..]);
      assert [s[0]] + s[1..] == s;
    }
  }

  lemma {:induction false} TrimLeftSnocSpace(s: string, c: char)
    requires IsSpace(c)
    ensures TrimLeft(s + [c]) == if TrimLeft(s) == [] then [] else TrimLeft(s) + [c]
    decreases |s|
  {
    if s != [] {
      assert (s + [c])[1..] == s[1..] + [c];
      if IsSpace(s[0]) {
        TrimLeftSnocSpace(s[1..], c);
      }
    }
  }

  lemma {:induction false} CollapseSnocSpace(s: string, c: char)
    requires IsSpace(c)
    ensures Collapse(s + [c]) == Collapse(s)
    decreases |s|
  {
    if s == [] {
      assert TrimLeft([c]) == TrimLeft([c][1..]);
    } else {
      assert (s + [c])[0] == s[0] && (s + [c])[1..] == s[1..] + [c];
      if !IsSpace(s[0]) {
        CollapseSnocSpace(s[1..], c);
      } else {
        TrimLeftSnocSpace(s, c);
        var rest := TrimLeft(s);
        if rest != [] {
          CollapseSnocSpace(rest, c);
        }
      }
    }
  }

  /** A whitespace character at the end is dropped by simplified(). */
  lemma SimplifiedSnocSpace(s: string, c: char)
    requires IsSpace(c)
    ensures Simplified(s + [c]) == Simplified(s)
  {
    TrimLeftSnocSpace(s, c);
    if TrimLeft(s) != [] {
      CollapseSnocSpace(TrimLeft(s), c);
    }
  }

  /**
   * Import undoes export: replacing `_` by space in the normalised id of a
   * name that is already simplified and holds no `_` gives the name back.
   */
  lemma NormalizeRoundTrip(name: string)
    requires Simplified(name) == name
    requires '_' !in name
    ensures Replace(Normalize(name), '_', ' ') == name
  {
    var n := Normalize(name);
    var r := Replace(n, '_', ' ');
    forall i | 0 <= i < |name| ensures r[i] == name[i] {
      assert name[i] != '_';
    }
  }

  /** A key id without whitespace is its own normalised id. */
  lemma NormalizeNoSpace(id: string)
    requires forall i :: 0 <= i < |id| ==> !IsSpace(id[i])
    ensures Normalize(id) == id
  {
    SimplifiedNoSpace(id);
  }
}
