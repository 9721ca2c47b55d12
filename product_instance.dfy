/**
 * `ProductInstanceWithURL`: the partition name a request path selects, the
 * product and instance named by its first two path segments.
 */
module ProductInstance {

  /** The name returned for the empty path. */
  const DefaultName: string := "JiangYouHua"

  /** The segments of `parts` with a '/' between each two consecutive ones. */
  function Join(parts: seq<string>): string
    requires |parts| >= 1
    decreases |parts|
  {
    if |parts| == 1 then parts[0] else parts[0] + "/" + Join(parts[1..])
  }

  /**
   * `strings.Split(s, "/")`: the pieces of `s` between separators, one more
   * than the separators in `s` (so `""` gives `[""]`).
   */
  function Split(s: string): (parts: seq<string>)
    ensures |parts| >= 1
    ensures forall i :: 0 <= i < |parts| ==> '/' !in parts[i]
    ensures Join(parts) == s
    ensures '/' !in s ==> parts == [s]
    ensures '/' in s ==> |parts| >= 2
    decreases |s|
  {
    if s == "" then [""]
    else
      var rest := Split(s[1..]);
      if s[0] == '/' then [""] + rest
      else
        assert s == [s[0]] + s[1..];
        [[s[0]] + rest[0]] + rest[1..]
  }

  /** A segment followed by a separator splits off as the first piece. */
  lemma {:induction false} SplitAfterSegment(x: string, y: string)
    requires '/' !in x
    ensures Split(x + "/" + y) == [x] + Split(y)
    decreases |x|
  {
    var s := x + "/" + y;
    if x == "" {
      assert s[0] == '/' && s[1..] == y;
    } else {
      assert s[0] == x[0] && s[1..] == x[1..] + "/" + y;
      SplitAfterSegment(x[1..], y);
      assert [x[0]] + x[1..] == x;
    }
  }

  /** Splitting undoes joining separator-free segments. */
  lemma {:induction false} SplitJoin(parts: seq<string>)
    requires |parts| >= 1
    requires forall i :: 0 <= i < |parts| ==> '/' !in parts[i]
    ensures Split(Join(parts)) == parts
    decreases |parts|
  {
    if |parts| > 1 {
      SplitAfterSegment(parts[0], Join(parts[1..]));
      SplitJoin(parts[1..]);
      assert [parts[0]] + parts[1..] == parts;
    }
  }

  /** The path with one leading '/' removed, when something follows it. */
  function Stripped(path: string): (r: string)
    ensures path == r || (path == "/" + r && r != "")
    ensures path != r <==> |path| > 1 && path[0] == '/'
  {
    if |path| > 1 && path[0] == '/' then path[1..] else path
  }

  function ProductInstanceWithURL(path: string): (r: string)
    ensures path == "" ==> r == DefaultName
    ensures path != "" && '/' !in Stripped(path) ==> r == Stripped(path)
  {
    if path == "" then DefaultName
    else
      var a := Split(Stripped(path));
      if |a| == 1 then a[0] else a[0] + "-" + a[1]
  }

  /**
   * A path whose (stripped) text is `a/b` or `a/b/...` names the partition
   * `a-b`; whatever follows the second segment is ignored.
   */
  lemma FirstTwoSegments(path: string, a: string, b: string, rest: string)
    requires path != "" && Stripped(path) == a + "/" + b + rest
    requires '/' !in a && '/' !in b
    requires rest == "" || rest[0] == '/'
    ensures ProductInstanceWithURL(path) == a + "-" + b
  {
    assert a + "/" + b + rest == a + "/" + (b + rest);
    SplitAfterSegment(a, b + rest);
    if rest != "" {
      var t := rest[1..];
      assert rest == "/" + t;
      assert b + rest == b + "/" + t;
      SplitAfterSegment(b, t);
    } else {
      assert b + rest == b;
    }
  }

  lemma ExampleEmpty()
    ensures ProductInstanceWithURL("") == "JiangYouHua"
  {
  }

  lemma ExampleOneSegment()
    ensures ProductInstanceWithURL("/a") == "a"
  {
    assert Stripped("/a") == "a";
  }

  lemma ExampleThreeSegments()
    ensures ProductInstanceWithURL("/a/b/c") == "a" + "-" + "b"
  {
    assert Stripped("/a/b/c") == "a" + "/" + "b" + "/c";
    FirstTwoSegments("/a/b/c", "a", "b", "/c");
  }

  lemma ExampleRoot()
    ensures ProductInstanceWithURL("/") == "-"
  {
    assert Stripped("/") == "" + "/" + "" + "";
    FirstTwoSegments("/", "", "", "");
  }
}
