/** The few Python built-ins the document parser relies on: byte strings and
    `bytes.startswith`, `str.isspace`, `str.strip` and `str.join`, and the
    outcome of a call that may raise. */
module Builtins {

  /** One element of a Python `bytes` value. */
  newtype byte = x: int | 0 <= x < 256

  /** `s.startswith(prefix)` on byte strings. */
  predicate StartsWith(s: seq<byte>, prefix: seq<byte>)
    ensures StartsWith(s, prefix) <==>
              |prefix| <= |s| && forall i :: 0 <= i < |prefix| ==> s[i] == prefix[i]
  {
    |prefix| <= |s| && s[..|prefix|] == prefix
  }

  /** The outcome of a Python call: a returned value, a raised `ValueError`
      carrying its message (`str(e)`), or any other exception, named by its
      class, that the caller does not catch. */
  datatype Outcome<T> =
    | Returned(value: T)
    | RaisedValueError(message: string)
    | RaisedOther(exception: string)

  // ---------------------------------------------------------------------
  // Whitespace and str.strip()

  /** `c.isspace()` for one character: the characters whose bidirectional
      class is WS, B or S, or whose general category is Zs. */
  predicate IsSpace(c: char)
  {
    ('\t' <= c <= '\r') || ('\U{1C}' <= c <= '\U{1F}') || c == ' '
    || c == '\U{85}' || c == '\U{A0}' || c == '\U{1680}'
    || ('\U{2000}' <= c <= '\U{200A}') || c == '\U{2028}' || c == '\U{2029}'
    || c == '\U{202F}' || c == '\U{205F}' || c == '\U{3000}'
  }

  /** No ASCII letter or digit is whitespace, and no whitespace character
      lies above U+3000. */
  lemma IsSpaceBounds(c: char)
    ensures ('0' <= c <= '9' || 'a' <= c <= 'z' || 'A' <= c <= 'Z') ==> !IsSpace(c)
    ensures IsSpace(c) ==> c <= '\U{3000}'
  {
  }

  predicate AllSpace(s: string) {
    forall i :: 0 <= i < |s| ==> IsSpace(s[i])
  }

  /** Neither the first nor the last character is whitespace. */
  predicate NoEdgeSpace(s: string) {
    s == [] || (!IsSpace(s[0]) && !IsSpace(s[|s| - 1]))
  }

  /** `s.lstrip()`: drops the longest leading run of whitespace. */
  function LStrip(s: string): (r: string)
    ensures |r| <= |s| && r == s[|s| - |r|..]
    ensures AllSpace(s[..|s| - |r|])
    ensures r == [] || !IsSpace(r[0])
    decreases |s|
  {
    if s != [] && IsSpace(s[0]) then
      var r := LStrip(s[1..]);
      assert s[..|s| - |r|] == [s[0]] + s[1..][..|s| - 1 - |r|];
      r
    else
      s
  }

  /** `s.rstrip()`: drops the longest trailing run of whitespace. */
  function RStrip(s: string): (r: string)
    ensures |r| <= |s| && r == s[..|r|]
    ensures AllSpace(s[|r|..])
    ensures r == [] || !IsSpace(r[|r| - 1])
    decreases |s|
  {
    if s != [] && IsSpace(s[|s| - 1]) then
      var r := RStrip(s[..|s| - 1]);
      assert s[|r|..] == s[..|s| - 1][|r|..] + [s[|s| - 1]];
      r
    else
      s
  }

  /** `s.strip()` with no argument: the leading and the trailing run of
      whitespace are removed. The result is empty exactly when `s` is all
      whitespace. */
  function Strip(s: string): (r: string)
    ensures NoEdgeSpace(r)
    ensures r == [] <==> AllSpace(s)
  {
    var t := LStrip(s);
    var r := RStrip(t);
    assert r != [] ==> r[0] == t[0];
    assert AllSpace(s) ==> t == [] by {
      assert t != [] ==> t[0] == s[|s| - |t|];
    }
    assert r == [] ==> AllSpace(s) by {
      assert s == s[..|s| - |t|] + t;
    }
    r
  }

  /** Where the stripped text sits in `s`: `s` is a whitespace run, then the
      stripped text, then a whitespace run. */
  lemma StripIsMiddle(s: string) returns (k: nat)
    ensures k + |Strip(s)| <= |s|
    ensures Strip(s) == s[k..k + |Strip(s)|]
    ensures AllSpace(s[..k])
    ensures AllSpace(s[k + |Strip(s)|..])
  {
    var t := LStrip(s);
    k := |s| - |t|;
    var r := RStrip(t);
    assert r == Strip(s);
    assert s[k + |r|..] == t[|r|..];
  }

  lemma {:induction false} LStripPadded(left: string, t: string)
    requires AllSpace(left)
    requires t == [] || !IsSpace(t[0])
    ensures LStrip(left + t) == t
    decreases |left|
  {
    if left != [] {
      assert (left + t)[0] == left[0];
      assert (left + t)[1..] == left[1..] + t;
      LStripPadded(left[1..], t);
    }
  }

  lemma {:induction false} RStripPadded(t: string, right: string)
    requires AllSpace(right)
    requires t == [] || !IsSpace(t[|t| - 1])
    ensures RStrip(t + right) == t
    decreases |right|
  {
    if right != [] {
      var n := |right| - 1;
      assert (t + right)[|t + right| - 1] == right[n];
      assert (t + right)[..|t + right| - 1] == t + right[..n];
      RStripPadded(t, right[..n]);
    }
  }

  /** The characterisation of `strip()`: whatever whitespace surrounds a text
      with no whitespace at its ends, stripping gives back exactly that
      text. */
  lemma {:induction false} StripOfPadded(left: string, m: string, right: string)
    requires AllSpace(left) && AllSpace(right) && NoEdgeSpace(m)
    ensures Strip(left + m + right) == m
  {
    var s := left + m + right;
    if m == [] {
      assert s == left + right;
      assert AllSpace(s) by {
        forall i | 0 <= i < |s| ensures IsSpace(s[i]) {
          if i < |left| { assert s[i] == left[i]; } else { assert s[i] == right[i - |left|]; }
        }
      }
    } else {
      assert s == left + (m + right);
      LStripPadded(left, m + right);
      RStripPadded(m, right);
    }
  }

  /** Stripping twice is stripping once. */
  lemma StripIdempotent(s: string)
    ensures Strip(Strip(s)) == Strip(s)
  {
    var r := Strip(s);
    assert [] + r + [] == r;
    StripOfPadded([], r, []);
  }

  // ---------------------------------------------------------------------
  // str.join()

  /** `sep.join(parts)`. */
  function Join(sep: string, parts: seq<string>): (r: string)
    ensures parts == [] ==> r == ""
    ensures |parts| == 1 ==> r == parts[0]
    decreases |parts|
  {
    if |parts| == 0 then ""
    else if |parts| == 1 then parts[0]
    else parts[0] + sep + Join(sep, parts[1..])
  }

  /** Joining whitespace-only parts with a space gives a whitespace-only
      string. */
  lemma {:induction false} JoinAllSpace(parts: seq<string>)
    requires forall i :: 0 <= i < |parts| ==> AllSpace(parts[i])
    ensures AllSpace(Join(" ", parts))
    decreases |parts|
  {
    if |parts| > 1 {
      var rest := Join(" ", parts[1..]);
      JoinAllSpace(parts[1..]);
      var r := parts[0] + " " + rest;
      forall k | 0 <= k < |r| ensures IsSpace(r[k]) {
        if k < |parts[0]| {
          assert r[k] == parts[0][k];
        } else if k == |parts[0]| {
          assert r[k] == ' ';
        } else {
          assert r[k] == rest[k - |parts[0]| - 1];
        }
      }
    }
  }

  /** The summed lengths of `parts`. */
  function TotalLength(parts: seq<string>): nat
    decreases |parts|
  {
    if parts == [] then 0 else |parts[0]| + TotalLength(parts[1..])
  }

  /** Where part `i` starts in `sep.join(parts)`. */
  function Offset(sep: string, parts: seq<string>, i: nat): nat
    requires i <= |parts|
  {
    TotalLength(parts[..i]) + i * |sep|
  }

  lemma {:induction false} TotalLengthSnoc(parts: seq<string>, p: string)
    ensures TotalLength(parts + [p]) == TotalLength(parts) + |p|
    decreases |parts|
  {
    if parts != [] {
      assert (parts + [p])[1..] == parts[1..] + [p];
      TotalLengthSnoc(parts[1..], p);
    }
  }

  /** Offsets of the parts of `parts[1..]` are shifted by the first part and
      one separator. */
  lemma OffsetTail(sep: string, parts: seq<string>, i: nat)
    requires 0 < i <= |parts|
    ensures Offset(sep, parts, i) == |parts[0]| + |sep| + Offset(sep, parts[1..], i - 1)
  {
    assert parts[..i][1..] == parts[1..][..i - 1];
  }

  /** The joined string has the parts' lengths plus one separator between
      each two neighbours. */
  lemma {:induction false} JoinLength(sep: string, parts: seq<string>)
    requires parts != []
    ensures |Join(sep, parts)| == TotalLength(parts) + (|parts| - 1) * |sep|
    decreases |parts|
  {
    if |parts| > 1 {
      JoinLength(sep, parts[1..]);
      assert (|parts| - 1) * |sep| == (|parts| - 2) * |sep| + |sep|;
    }
  }

  /** Part `i` appears, unchanged, at its offset in the joined string. */
  lemma {:induction false} JoinPartAt(sep: string, parts: seq<string>, i: nat)
    requires i < |parts|
    ensures Offset(sep, parts, i) + |parts[i]| <= |Join(sep, parts)|
    ensures Join(sep, parts)[Offset(sep, parts, i)..Offset(sep, parts, i) + |parts[i]|] == parts[i]
    decreases |parts|
  {
    if i == 0 {
      assert parts[..0] == [];
    } else {
      var rest := Join(sep, parts[1..]);
      var o := Offset(sep, parts[1..], i - 1);
      JoinPartAt(sep, parts[1..], i - 1);
      OffsetTail(sep, parts, i);
      var head := parts[0] + sep;
      assert Join(sep, parts) == head + rest;
      assert (head + rest)[|head| + o..|head| + o + |parts[i]|] == rest[o..o + |parts[i]|];
    }
  }

  /** Between part `i` and part `i + 1` stands exactly one separator. */
  lemma {:induction false} JoinSepAt(sep: string, parts: seq<string>, i: nat)
    requires i + 1 < |parts|
    ensures Offset(sep, parts, i + 1) == Offset(sep, parts, i) + |parts[i]| + |sep|
    ensures Offset(sep, parts, i + 1) <= |Join(sep, parts)|
    ensures Join(sep, parts)[Offset(sep, parts, i) + |parts[i]|..Offset(sep, parts, i + 1)] == sep
    decreases |parts|
  {
    assert parts[..i + 1] == parts[..i] + [parts[i]];
    TotalLengthSnoc(parts[..i], parts[i]);
    var rest := Join(sep, parts[1..]);
    var head := parts[0] + sep;
    assert Join(sep, parts) == head + rest;
    if i == 0 {
      assert parts[..0] == [];
      assert parts[..1] == [parts[0]];
      JoinLength(sep, parts[1..]);
    } else {
      JoinSepAt(sep, parts[1..], i - 1);
      OffsetTail(sep, parts, i);
      OffsetTail(sep, parts, i + 1);
      var a := Offset(sep, parts[1..], i - 1) + |parts[i]|;
      var b := Offset(sep, parts[1..], i);
      assert (head + rest)[|head| + a..|head| + b] == rest[a..b];
    }
  }
}
