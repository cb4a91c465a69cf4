/**
 * The task list of the watch command (commands/watch.go:36 and :49).
 *
 * The default of the "tasks" flag is built with strings.Join over four task
 * names and a "," separator, and the command reads the flag back with
 * strings.Split on the same separator. Both are modelled for a separator of
 * one character, which is the only one the command uses.
 */
module Tasks {

  const Comma: char := ','

  /**
   * Task names of package chain. Their definitions are not part of this
   * model; the round trip below needs only that none of them holds a comma.
   */
  const BlocksTask: string := "blocks"
  const MessagesTask: string := "messages"
  const ChainEconomicsTask: string := "chaineconomics"
  const ActorStatesRawTask: string := "actorstatesraw"

  const DefaultTaskNames: seq<string> := [BlocksTask, MessagesTask, ChainEconomicsTask, ActorStatesRawTask]

  /** The default value of the "tasks" flag. */
  const DefaultTasks: string := Join(DefaultTaskNames, Comma)

  /**
   * strings.Join: the parts with one separator between neighbours; "" for no
   * parts and the part itself for one.
   */
  function Join(parts: seq<string>, sep: char): (s: string)
    ensures |parts| == 0 ==> s == ""
    ensures |parts| == 1 ==> s == parts[0]
    ensures |parts| >= 1 && (forall i :: 0 <= i < |parts| ==> sep !in parts[i]) ==> Count(s, sep) == |parts| - 1
  {
    if |parts| == 0 then ""
    else if |parts| == 1 then
      CountAbsent(parts[0], sep); parts[0]
    else
      var rest := Join(parts[1..], sep);
      CountConcat(parts[0] + [sep], rest, sep);
      CountConcat(parts[0], [sep], sep);
      CountAbsent(parts[0], sep);
      parts[0] + [sep] + rest
  }

  /**
   * strings.Split: the maximal pieces of s between separators. There is
   * always at least one piece (Split of "" is [""]), and there is one piece
   * more than there are separators in s; no piece holds a separator.
   */
  function Split(s: string, sep: char): (parts: seq<string>)
    ensures |parts| == Count(s, sep) + 1
    ensures forall i :: 0 <= i < |parts| ==> sep !in parts[i]
  {
    if |s| == 0 then [""]
    else if s[0] == sep then [""] + Split(s[1..], sep)
    else
      var rest := Split(s[1..], sep);
      [[s[0]] + rest[0]] + rest[1..]
  }

  /** The number of occurrences of c in s. */
  function Count(s: string, c: char): nat
  {
    if |s| == 0 then 0
    else (if s[0] == c then 1 else 0) + Count(s[1..], c)
  }

  /** Counting distributes over concatenation. */
  lemma {:induction false} CountConcat(a: string, b: string, c: char)
    ensures Count(a + b, c) == Count(a, c) + Count(b, c)
    decreases |a|
  {
    if |a| > 0 {
      assert (a + b)[1..] == a[1..] + b;
      CountConcat(a[1..], b, c);
    } else {
      assert a + b == b;
    }
  }

  /** A string without c holds no occurrence of it. */
  lemma {:induction false} CountAbsent(a: string, c: char)
    ensures c !in a ==> Count(a, c) == 0
    decreases |a|
  {
    if |a| > 0 {
      CountAbsent(a[1..], c);
    }
  }

  /** Splitting a piece free of separators, followed by a separator, splits off exactly that piece. */
  lemma {:induction false} SplitHead(p: string, sep: char, rest: string)
    requires sep !in p
    ensures Split(p + [sep] + rest, sep) == [p] + Split(rest, sep)
    decreases |p|
  {
    var s := p + [sep] + rest;
    if |p| == 0 {
      assert s == [sep] + rest;
      assert s[1..] == rest;
    } else {
      assert s[0] == p[0];
      assert s[1..] == p[1..] + [sep] + rest;
      SplitHead(p[1..], sep, rest);
      assert [p[0]] + p[1..] == p;
    }
  }

  /** A piece free of separators splits into itself. */
  lemma {:induction false} SplitAtom(p: string, sep: char)
    requires sep !in p
    ensures Split(p, sep) == [p]
    decreases |p|
  {
    if |p| > 0 {
      SplitAtom(p[1..], sep);
      assert [p[0]] + p[1..] == p;
    }
  }

  /**
   * Join then Split gives back the parts, as long as there is at least one
   * part and no part holds the separator.
   */
  lemma {:induction false} SplitJoin(parts: seq<string>, sep: char)
    requires |parts| >= 1
    requires forall i :: 0 <= i < |parts| ==> sep !in parts[i]
    ensures Split(Join(parts, sep), sep) == parts
    decreases |parts|
  {
    if |parts| == 1 {
      SplitAtom(parts[0], sep);
    } else {
      SplitHead(parts[0], sep, Join(parts[1..], sep));
      SplitJoin(parts[1..], sep);
      assert [parts[0]] + parts[1..] == parts;
    }
  }

  /** Split then Join gives back the string, for every string. */
  lemma {:induction false} JoinSplit(s: string, sep: char)
    ensures Join(Split(s, sep), sep) == s
    decreases |s|
  {
    if |s| > 0 {
      JoinSplit(s[1..], sep);
      var rest := Split(s[1..], sep);
      if s[0] == sep {
        assert ([""] + rest)[1..] == rest;
      } else {
        var parts := [[s[0]] + rest[0]] + rest[1..];
        assert parts[1..] == rest[1..];
        if |rest| > 1 {
          assert Join(rest, sep) == rest[0] + [sep] + Join(rest[1..], sep);
        }
      }
      assert s == [s[0]] + s[1..];
    }
  }

  /** Reading the default "tasks" value back yields the four task names in order. */
  lemma DefaultTasksRoundTrip()
    ensures Split(DefaultTasks, Comma) == [BlocksTask, MessagesTask, ChainEconomicsTask, ActorStatesRawTask]
  {
    SplitJoin(DefaultTaskNames, Comma);
  }
}
