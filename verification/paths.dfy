/**
 * `strings.Split(path, "/")` and `strings.Join(parts, "/")`, and the two path
 * functions built from them: the directory part that `files.Create` makes with
 * `mkdir -p`, and the base name under which the client uploads a file.
 */
module Paths {

  /** The pieces of `s` between '/' separators; there is always at least one. */
  function Split(s: string): (parts: seq<string>)
    ensures |parts| >= 1
    ensures forall i :: 0 <= i < |parts| ==> '/' !in parts[i]
    ensures |parts| == 1 <==> '/' !in s
    ensures Join(parts) == s
  {
    if |s| == 0 then [""]
    else
      var rest := Split(s[1..]);
      if s[0] == '/' then
        assert Join([""] + rest) == "" + "/" + Join(rest);
        [""] + rest
      else
        var parts := [[s[0]] + rest[0]] + rest[1..];
        assert s == [s[0]] + s[1..];
        if |rest| == 1 then
          parts
        else
          assert Join(rest) == rest[0] + "/" + Join(rest[1..]);
          assert parts[1..] == rest[1..];
          parts
  }

  /** The pieces joined with '/' between consecutive ones. */
  function Join(parts: seq<string>): (joined: string)
  {
    if |parts| == 0 then ""
    else if |parts| == 1 then parts[0]
    else parts[0] + "/" + Join(parts[1..])
  }

  /** The last '/'-separated segment of `s`: the whole of `s` when it has no '/'. */
  function BaseName(s: string): (base: string)
  {
    var parts := Split(s);
    parts[|parts| - 1]
  }

  /** `s` without its last segment and the separator before it: "" when `s` has no '/'. */
  function DirPath(s: string): (dir: string)
  {
    var parts := Split(s);
    Join(parts[..|parts| - 1])
  }

  lemma {:induction false} JoinSnoc(parts: seq<string>, x: string)
    requires |parts| >= 1
    ensures Join(parts + [x]) == Join(parts) + "/" + x
    decreases |parts|
  {
    if |parts| == 1 {
      assert (parts + [x])[1..] == [x];
    } else {
      assert (parts + [x])[1..] == parts[1..] + [x];
      JoinSnoc(parts[1..], x);
    }
  }

  /** Splitting `d + "/" + b` where `b` has no separator yields the pieces of `d`, then `b`. */
  lemma {:induction false} SplitSnoc(d: string, b: string)
    requires '/' !in b
    ensures Split(d + "/" + b) == Split(d) + [b]
    decreases |d|
  {
    var s := d + "/" + b;
    if |d| == 0 {
      assert s == "/" + b && s[1..] == b;
      assert Split(b) == [b] by {
        var p := Split(b);
        assert |p| == 1;
        assert Join(p) == p[0];
      }
    } else {
      assert s[0] == d[0] && s[1..] == d[1..] + "/" + b;
      SplitSnoc(d[1..], b);
    }
  }

  /** The base name never contains a separator. */
  lemma BaseNameHasNoSeparator(s: string)
    ensures '/' !in BaseName(s)
  {
  }

  /**
   * Directory part and base name characterise each other: without a '/', the directory
   * part is empty and the base name is the whole path; with one, they are exactly the
   * `d` and `b` with `s == d + "/" + b` and no '/' in `b`.
   */
  lemma {:induction false} PathDecomposition(s: string)
    ensures '/' !in s ==> DirPath(s) == "" && BaseName(s) == s
    ensures '/' in s ==> s == DirPath(s) + "/" + BaseName(s) && '/' !in BaseName(s)
  {
    var parts := Split(s);
    if '/' in s {
      var n := |parts|;
      assert parts == parts[..n - 1] + [parts[n - 1]];
      JoinSnoc(parts[..n - 1], parts[n - 1]);
    } else {
      assert Join(parts) == parts[0];
    }
  }

  lemma {:induction false} PathDecompositionUnique(s: string, d: string, b: string)
    requires s == d + "/" + b && '/' !in b
    ensures DirPath(s) == d && BaseName(s) == b
  {
    SplitSnoc(d, b);
    var parts := Split(s);
    assert parts[..|parts| - 1] == Split(d);
  }

  /** The example from the repository's test: "./test/hello/world" lives in "./test/hello". */
  lemma DirPathExample()
    ensures DirPath("./test/hello/world") == "./test/hello"
    ensures BaseName("./test/hello/world") == "world"
  {
    PathDecompositionUnique("./test/hello/world", "./test/hello", "world");
  }
}
