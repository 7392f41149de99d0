/** Text as the C library sees it: NUL-terminated strings, lines read by
    getline, fields separated by a delimiter, and strlcpy's bounded copy. */
module CText {

  datatype Option<T> = None | Some(value: T)

  /** What a `const char *` can hold: no NUL before its terminator. */
  type CString = s: string | '\0' !in s

  /** The C string a buffer holds: everything before its first NUL. */
  function CStr(s: string): (r: CString)
    ensures r <= s
    ensures |r| < |s| ==> s[|r|] == '\0'
    decreases |s|
  {
    if s == [] || s[0] == '\0' then [] else [s[0]] + CStr(s[1..])
  }

  lemma {:induction false} CStrStops(a: CString, b: string)
    ensures CStr(a + ['\0'] + b) == a
    decreases |a|
  {
    var s := a + ['\0'] + b;
    if a != [] {
      assert s[1..] == a[1..] + ['\0'] + b;
      CStrStops(a[1..], b);
      assert [a[0]] + a[1..] == a;
    }
  }

  lemma CStrOfCString(s: CString)
    ensures CStr(s) == s
  {
  }

  /** getline keeps the line terminator; the bridge drops one trailing `\n`. */
  function StripNewline(l: string): string
  {
    if |l| > 0 && l[|l| - 1] == '\n' then l[..|l| - 1] else l
  }

  /** Removes the first element of a sequence, if any (one line consumed). */
  function Rest<T>(s: seq<T>): seq<T>
  {
    if s == [] then [] else s[1..]
  }

  /** The fields of `s` between occurrences of `d`. */
  function Split(s: string, d: char): (fs: seq<string>)
    ensures |fs| >= 1
    decreases |s|
  {
    if s == [] then [""]
    else
      var rest := Split(s[1..], d);
      if s[0] == d then [""] + rest else [[s[0]] + rest[0]] + rest[1..]
  }

  /** The fields `fs` written one after the other with `d` between them. */
  function Join(fs: seq<string>, d: char): string
    requires |fs| >= 1
  {
    if |fs| == 1 then fs[0] else fs[0] + [d] + Join(fs[1..], d)
  }

  /** A character other than the delimiter occurs in the joined text
      exactly when it occurs in one of the fields. */
  lemma {:induction false} JoinHolds(fs: seq<string>, d: char, c: char)
    requires |fs| >= 1 && c != d
    ensures c in Join(fs, d) <==> exists i :: 0 <= i < |fs| && c in fs[i]
    decreases |fs|
  {
    if |fs| > 1 {
      JoinHolds(fs[1..], d, c);
      assert Join(fs, d) == fs[0] + [d] + Join(fs[1..], d);
      if c in Join(fs[1..], d) {
        var i :| 0 <= i < |fs| - 1 && c in fs[1..][i];
        assert c in fs[i + 1];
      }
      if exists i :: 0 <= i < |fs| && c in fs[i] {
        var i :| 0 <= i < |fs| && c in fs[i];
        if i > 0 {
          assert c in fs[1..][i - 1];
        }
      }
    }
  }

  lemma {:induction false} SplitPlain(x: string, d: char)
    requires d !in x
    ensures Split(x, d) == [x]
    decreases |x|
  {
    if x != [] {
      SplitPlain(x[1..], d);
      assert [x[0]] + x[1..] == x;
    }
  }

  lemma {:induction false} SplitAppend(x: string, y: string, d: char)
    ensures Split(x + [d] + y, d) == Split(x, d) + Split(y, d)
    decreases |x|
  {
    var s := x + [d] + y;
    if x == [] {
      assert s[1..] == y;
    } else {
      assert s[1..] == x[1..] + [d] + y;
      SplitAppend(x[1..], y, d);
    }
  }

  lemma {:induction false} SplitJoin(fs: seq<string>, d: char)
    requires |fs| >= 1
    requires forall i :: 0 <= i < |fs| ==> d !in fs[i]
    ensures Split(Join(fs, d), d) == fs
    decreases |fs|
  {
    SplitPlain(fs[0], d);
    if |fs| > 1 {
      SplitJoin(fs[1..], d);
      SplitAppend(fs[0], Join(fs[1..], d), d);
      assert [fs[0]] + fs[1..] == fs;
    }
  }

  /** However its fields look, joining never yields fewer fields than were joined. */
  lemma {:induction false} SplitJoinAtLeast(fs: seq<string>, d: char)
    requires |fs| >= 1
    ensures |Split(Join(fs, d), d)| >= |fs|
    decreases |fs|
  {
    if |fs| > 1 {
      SplitJoinAtLeast(fs[1..], d);
      SplitAppend(fs[0], Join(fs[1..], d), d);
    }
  }

  /** strlcpy(dst, src, |buf|) on a buffer `buf`: at most |buf| - 1 bytes of
      `src`, then a NUL; nothing is written when the buffer is empty. */
  function Strlcpy(buf: seq<char>, src: CString): (r: seq<char>)
    ensures |r| == |buf|
    ensures |buf| > 0 ==> CStr(r) == if |src| < |buf| then src else src[..|buf| - 1]
    ensures |src| < |buf| ==> r[|src| + 1..] == buf[|src| + 1..]
  {
    if |buf| == 0 then buf
    else
      var n := if |src| < |buf| then |src| else |buf| - 1;
      CStrStops(src[..n], buf[n + 1..]);
      src[..n] + ['\0'] + buf[n + 1..]
  }
}
