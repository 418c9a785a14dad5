/** Paths as strings: "d:/" followed by parts separated by '/'. */
module PathSpec {

  const MAX_PATH: int := 128

  datatype Option<T> = None | Some(value: T)

  /** The characters up to the first '/' or the end. */
  function Head(s: string): (r: string)
    ensures |r| <= |s| && r == s[..|r|] && '/' !in r
    ensures |r| < |s| ==> s[|r|] == '/'
  {
    if s == "" || s[0] == '/' then "" else [s[0]] + Head(s[1..])
  }

  /** What follows the first part and its '/'. */
  function Rest(s: string): string {
    var n := |Head(s)|;
    if n < |s| then s[n + 1..] else ""
  }

  /** The parts read one after another until one is empty. */
  function Parts(s: string): seq<string>
    decreases |s|
  {
    if Head(s) == "" then [] else [Head(s)] + Parts(Rest(s))
  }

  lemma RestIsShorter(s: string)
    requires Head(s) != ""
    ensures |Rest(s)| < |s|
  {
  }

  predicate ValidFormat(path: string) {
    |path| >= 3 && '0' <= path[0] <= '9' && path[1] == ':' && path[2] == '/'
  }

  /** Drive number and parts of a path, or nothing for a path that is refused. */
  function Parsed(path: string): Option<(int, seq<string>)> {
    if |path| <= MAX_PATH && ValidFormat(path)
    then Some((path[0] as int - '0' as int, Parts(path[3..])))
    else None
  }

  // ---- Parsing inverts printing ----

  function Join(parts: seq<string>): string {
    if |parts| == 0 then ""
    else if |parts| == 1 then parts[0]
    else parts[0] + "/" + Join(parts[1..])
  }

  function Print(drive: nat, parts: seq<string>): string
    requires drive < 10
  {
    ['0' + drive as char, ':', '/'] + Join(parts)
  }

  predicate IsPart(p: string) {
    p != "" && '/' !in p
  }

  lemma {:induction false} HeadOfPart(p: string, t: string)
    requires '/' !in p && (t == "" || t[0] == '/')
    ensures Head(p + t) == p
    decreases |p|
  {
    if p == "" {
      assert p + t == t;
    } else {
      assert (p + t)[0] == p[0] && (p + t)[1..] == p[1..] + t;
      HeadOfPart(p[1..], t);
    }
  }

  lemma {:induction false} PartsOfJoin(parts: seq<string>)
    requires forall p | p in parts :: IsPart(p)
    ensures Parts(Join(parts)) == parts
  {
    if parts != [] {
      var p, tail := parts[0], parts[1..];
      var t := if tail == [] then "" else "/" + Join(tail);
      assert p in parts && parts == [p] + tail;
      assert Join(parts) == p + t;
      HeadOfPart(p, t);
      assert Rest(p + t) == Join(tail);
      PartsOfJoin(tail);
    }
  }

  /** Every printed path of at most 128 characters parses to what was printed. */
  lemma ParsedPrint(drive: nat, parts: seq<string>)
    requires drive < 10 && |Print(drive, parts)| <= MAX_PATH
    requires forall p | p in parts :: IsPart(p)
    ensures Parsed(Print(drive, parts)) == Some((drive, parts))
  {
    var path := Print(drive, parts);
    assert path[3..] == Join(parts);
    PartsOfJoin(parts);
  }

  /** Exactly the accepted paths: at most 128 characters, a digit, ":/" and any rest. */
  lemma ParsedIff(path: string)
    ensures Parsed(path).Some?
            <==> 3 <= |path| <= 128 && path[0] in "0123456789" && path[1..3] == ":/"
  {
    if |path| >= 3 {
      var digits := "0123456789";
      assert '0' <= path[0] <= '9' ==> digits[path[0] as int - '0' as int] == path[0];
      assert path[1..3] == [path[1], path[2]];
    }
  }

  // ---- In general: the non-empty prefix of the split ----

  function Split(s: string): seq<string>
    decreases |s|
  {
    if '/' !in s then [s] else [Head(s)] + if |Head(s)| < |s| then Split(Rest(s)) else []
  }

  function NonEmptyPrefix(parts: seq<string>): seq<string> {
    if parts == [] || parts[0] == "" then [] else [parts[0]] + NonEmptyPrefix(parts[1..])
  }

  lemma HeadAndRest(s: string)
    ensures if '/' in s then |Head(s)| < |s| && s == Head(s) + "/" + Rest(s) else Head(s) == s
  {
    hide Head;
    var n := |Head(s)|;
    assert s[..|s|] == s;
    if n < |s| {
      assert s == s[..n] + [s[n]] + s[n + 1..];
    }
  }

  lemma {:induction false} PartsArePrefixOfSplit(s: string)
    ensures Parts(s) == NonEmptyPrefix(Split(s))
    decreases |s|
  {
    HeadAndRest(s);
    if '/' in s && Head(s) != "" {
      PartsArePrefixOfSplit(Rest(s));
    }
  }

  /** Splitting loses nothing: joining the pieces with '/' gives the string back. */
  lemma {:induction false} JoinOfSplit(s: string)
    ensures |Split(s)| >= 1 && Join(Split(s)) == s
    decreases |s|
  {
    hide Head, Rest;
    HeadAndRest(s);
    if '/' in s {
      JoinOfSplit(Rest(s));
      assert Split(s)[1..] == Split(Rest(s));
    }
  }
}
