/** Shared value types: optional values (Java's nullable references), results
    (a value or the exception that a Java method throws), and the few
    java.lang.String operations the backend relies on. */
module Common {

  /** A nullable Java reference: `None` stands for `null`. */
  datatype Option<+T> = None | Some(value: T)

  /** The outcome of a Java call: the returned value or the thrown exception. */
  datatype Result<+T, +E> = Ok(value: T) | Err(error: E)

  /** The empty return value of a Java `void` method. */
  datatype Unit = Unit

  /** java.lang.Character.isWhitespace: the space, line and paragraph
      separators other than the three non-breaking spaces, plus the ASCII
      control whitespace characters. */
  predicate IsWhitespace(c: char)
  {
    || c == ' ' || c == '\t' || c == '\n' || c == '\U{000B}' || c == '\U{000C}' || c == '\r'
    || ('\U{001C}' <= c <= '\U{001F}')
    || c == '\U{1680}' || ('\U{2000}' <= c <= '\U{2006}') || ('\U{2008}' <= c <= '\U{200A}')
    || c == '\U{2028}' || c == '\U{2029}' || c == '\U{205F}' || c == '\U{3000}'
  }

  /** String.isBlank: empty or whitespace only. */
  predicate IsBlank(s: string)
  {
    forall i :: 0 <= i < |s| ==> IsWhitespace(s[i])
  }

  /** The null-or-blank guard that the services apply to their string inputs. */
  predicate NullOrBlank(s: Option<string>)
  {
    s.None? || IsBlank(s.value)
  }

  /** String.startsWith. */
  predicate StartsWith(s: string, prefix: string)
  {
    |prefix| <= |s| && s[..|prefix|] == prefix
  }

  /** String.contains: `sub` occurs at some offset of `s`. */
  predicate Contains(s: string, sub: string)
  {
    exists i | 0 <= i <= |s| :: OccursAt(s, sub, i)
  }

  /** `sub` occurs in `s` starting at offset `i`. */
  predicate OccursAt(s: string, sub: string, i: int)
  {
    0 <= i <= |s| - |sub| && s[i..i + |sub|] == sub
  }

  /** The first element of `s` that satisfies `p` (Stream.filter(p).findFirst()). */
  function FindFirst<T>(s: seq<T>, p: T -> bool): (r: Option<T>)
    ensures r.Some? ==> r.value in s && p(r.value)
    ensures r.None? <==> forall i :: 0 <= i < |s| ==> !p(s[i])
  {
    if |s| == 0 then None
    else if p(s[0]) then Some(s[0])
    else FindFirst(s[1..], p)
  }

  /** The elements of `s` that satisfy `p`, in order (Stream.filter(p).toList()). */
  function Filter<T>(s: seq<T>, p: T -> bool): (r: seq<T>)
    ensures |r| <= |s|
    ensures forall x :: x in r ==> x in s && p(x)
    ensures forall x :: x in s && p(x) ==> x in r
  {
    if |s| == 0 then []
    else if p(s[0]) then [s[0]] + Filter(s[1..], p)
    else Filter(s[1..], p)
  }

  /** Stream.map(f).toList(). */
  function Map<T, U>(s: seq<T>, f: T -> U): (r: seq<U>)
    ensures |r| == |s|
    ensures forall i :: 0 <= i < |s| ==> r[i] == f(s[i])
    ensures forall x :: x in s ==> f(x) in r
  {
    if |s| == 0 then [] else [f(s[0])] + Map(s[1..], f)
  }

  /** The number of elements of `s` that satisfy `p`. */
  function Count<T>(s: seq<T>, p: T -> bool): (n: nat)
    ensures n <= |s|
    ensures n == 0 <==> forall i :: 0 <= i < |s| ==> !p(s[i])
  {
    if |s| == 0 then 0 else (if p(s[0]) then 1 else 0) + Count(s[1..], p)
  }

  /** String.length(): UTF-16 code units, two for a character outside the
      Basic Multilingual Plane. */
  function Utf16Length(s: string): (n: nat)
    ensures |s| <= n <= 2 * |s|
  {
    if |s| == 0 then 0 else (if s[0] as int > 0xFFFF then 2 else 1) + Utf16Length(s[1..])
  }

  /** FindFirst returns an element that no earlier element precedes:
      the element at the first index where `p` holds. */
  lemma {:induction false} FindFirstIsFirst<T>(s: seq<T>, p: T -> bool)
    ensures FindFirst(s, p).Some? ==>
      exists i :: 0 <= i < |s| && s[i] == FindFirst(s, p).value
        && forall j :: 0 <= j < i ==> !p(s[j])
  {
    if |s| > 0 && !p(s[0]) {
      FindFirstIsFirst(s[1..], p);
      if FindFirst(s[1..], p).Some? {
        var i :| 0 <= i < |s[1..]| && s[1..][i] == FindFirst(s[1..], p).value
          && forall j :: 0 <= j < i ==> !p(s[1..][j]);
        assert s[i + 1] == FindFirst(s, p).value;
        forall j | 0 <= j < i + 1
          ensures !p(s[j])
        {
          if j > 0 {
            assert s[j] == s[1..][j - 1];
          }
        }
      }
    }
  }

  /** Appending an element: filtering distributes over concatenation. */
  lemma {:induction false} FilterAppend<T>(s: seq<T>, x: T, p: T -> bool)
    ensures Filter(s + [x], p) == Filter(s, p) + (if p(x) then [x] else [])
  {
    if |s| == 0 {
      assert s + [x] == [x];
      assert [x][1..] == [];
    } else {
      assert (s + [x])[1..] == s[1..] + [x];
      FilterAppend(s[1..], x, p);
    }
  }

  /** Appending an element adds one to the count exactly when it satisfies `p`. */
  lemma {:induction false} CountAppend<T>(s: seq<T>, x: T, p: T -> bool)
    ensures Count(s + [x], p) == Count(s, p) + (if p(x) then 1 else 0)
  {
    if |s| == 0 {
      assert s + [x] == [x];
      assert [x][1..] == [];
    } else {
      assert (s + [x])[1..] == s[1..] + [x];
      CountAppend(s[1..], x, p);
    }
  }

  /** When no two elements both satisfy `p`, at most one does. */
  lemma {:induction false} CountAtMostOne<T>(s: seq<T>, p: T -> bool)
    requires forall i, j :: 0 <= i < j < |s| ==> !(p(s[i]) && p(s[j]))
    ensures Count(s, p) <= 1
  {
    if |s| > 0 {
      CountAtMostOne(s[1..], p);
      if p(s[0]) {
        forall i | 0 <= i < |s[1..]|
          ensures !p(s[1..][i])
        {
          assert s[1..][i] == s[i + 1];
        }
      }
    }
  }

  /** Every character of a contained string occurs in the containing one. */
  lemma ContainsHasChar(s: string, sub: string, k: int)
    requires Contains(s, sub) && 0 <= k < |sub|
    ensures sub[k] in s
  {
    var i :| 0 <= i <= |s| && OccursAt(s, sub, i);
    assert s[i + k] == s[i..i + |sub|][k];
  }

  /** Mapping distributes over appending an element. */
  lemma MapAppend<T, U>(s: seq<T>, x: T, f: T -> U)
    ensures Map(s + [x], f) == Map(s, f) + [f(x)]
  {
  }

  /** Filtering keeps exactly the elements that the count counts. */
  lemma {:induction false} FilterLengthIsCount<T>(s: seq<T>, p: T -> bool)
    ensures |Filter(s, p)| == Count(s, p)
  {
    if |s| > 0 {
      FilterLengthIsCount(s[1..], p);
    }
  }
}
