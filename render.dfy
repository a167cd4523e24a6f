/**
 * The text that `HashMap.__str__` produces: one line per bucket, in bucket
 * order, each `Bucket <i>: Empty` or `Bucket <i>: ` followed by the chain's
 * `<key>: <value>` items from head to tail, joined by ` -> `, and the lines
 * joined by newlines.  Python's `str` of keys and values is a parameter.
 */
module Render {
  import opened Chaining

  /** The decimal digit for `d`. */
  function Digit(d: nat): (c: char)
    requires d < 10
    ensures '0' <= c <= '9' && c as int - '0' as int == d
  {
    (d + '0' as int) as char
  }

  /** Python's `str` of a non-negative int: its decimal digits, most significant first. */
  function NatStr(i: nat): (s: string)
    ensures |s| > 0
    ensures forall j | 0 <= j < |s| :: '0' <= s[j] <= '9'
    ensures s[0] == '0' <==> i == 0
    ensures |s| > 1 ==> s[0] != '0'
  {
    if i < 10 then [Digit(i)] else NatStr(i / 10) + [Digit(i % 10)]
  }

  /** The number a string of decimal digits denotes. */
  function DigitsValue(s: string): nat
    requires forall j | 0 <= j < |s| :: '0' <= s[j] <= '9'
  {
    if s == [] then 0 else DigitsValue(s[..|s| - 1]) * 10 + (s[|s| - 1] as int - '0' as int)
  }

  /** The bucket number in a line reads back as that bucket's index. */
  lemma {:induction false} NatStrValue(i: nat)
    ensures DigitsValue(NatStr(i)) == i
  {
    if i >= 10 {
      NatStrValue(i / 10);
      var s := NatStr(i);
      assert s[..|s| - 1] == NatStr(i / 10);
    }
  }

  /** Python's `sep.join(parts)`. */
  function Join(parts: seq<string>, sep: string): string
  {
    if |parts| == 0 then ""
    else if |parts| == 1 then parts[0]
    else parts[0] + sep + Join(parts[1..], sep)
  }

  /** Python's `s.split(sep)` for a one-character separator. */
  function Split(s: string, sep: char): (parts: seq<string>)
    ensures |parts| > 0
  {
    if s == [] then [""]
    else
      var rest := Split(s[1..], sep);
      if s[0] == sep then [""] + rest else [[s[0]] + rest[0]] + rest[1..]
  }

  lemma {:induction false} SplitNoSep(a: string, sep: char)
    requires sep !in a
    ensures Split(a, sep) == [a]
  {
    if a != [] {
      SplitNoSep(a[1..], sep);
      assert [a[0]] + a[1..] == a;
    }
  }

  lemma {:induction false} SplitAfter(a: string, sep: char, s: string)
    requires sep !in a
    ensures Split(a + [sep] + s, sep) == [a] + Split(s, sep)
  {
    if a == [] {
      assert a + [sep] + s == [sep] + s;
      assert ([sep] + s)[1..] == s;
    } else {
      SplitAfter(a[1..], sep, s);
      assert (a + [sep] + s)[1..] == a[1..] + [sep] + s;
      assert [a[0]] + a[1..] == a;
    }
  }

  /** Splitting the joined lines at the separator gives back exactly the lines. */
  lemma {:induction false} SplitJoin(lines: seq<string>, sep: char)
    requires |lines| > 0
    requires forall i | 0 <= i < |lines| :: sep !in lines[i]
    ensures Split(Join(lines, [sep]), sep) == lines
  {
    if |lines| == 1 {
      SplitNoSep(lines[0], sep);
    } else {
      SplitJoin(lines[1..], sep);
      SplitAfter(lines[0], sep, Join(lines[1..], [sep]));
      assert lines == [lines[0]] + lines[1..];
    }
  }

  /** A join of parts free of `c`, with a separator free of `c`, is free of `c`. */
  lemma {:induction false} JoinAvoids(parts: seq<string>, sep: string, c: char)
    requires c !in sep
    requires forall i | 0 <= i < |parts| :: c !in parts[i]
    ensures c !in Join(parts, sep)
  {
    if |parts| > 1 {
      JoinAvoids(parts[1..], sep, c);
    }
  }

  /** One chain item: f"{key}: {value}". */
  function ItemText<K, V>(e: (K, V), keyStr: K -> string, valStr: V -> string): string
  {
    keyStr(e.0) + ": " + valStr(e.1)
  }

  /** The items of a chain, head first. */
  function Items<K, V>(c: Chain<K, V>, keyStr: K -> string, valStr: V -> string): (items: seq<string>)
    ensures |items| == |c|
  {
    seq(|c|, j requires 0 <= j < |c| => ItemText(c[j], keyStr, valStr))
  }

  /** The prefix of the line for bucket `i`. */
  function LineHead(i: nat): string
  {
    "Bucket " + NatStr(i) + ": "
  }

  /** The line for bucket `i` holding chain `c`. */
  function BucketLine<K, V>(i: nat, c: Chain<K, V>, keyStr: K -> string, valStr: V -> string): string
  {
    LineHead(i) + if c == [] then "Empty" else Join(Items(c, keyStr, valStr), " -> ")
  }

  /** The lines of the dump, one per bucket, in bucket order. */
  function Lines<K, V>(t: seq<Chain<K, V>>, keyStr: K -> string, valStr: V -> string): (lines: seq<string>)
    ensures |lines| == |t|
  {
    seq(|t|, i requires 0 <= i < |t| => BucketLine(i, t[i], keyStr, valStr))
  }

  /** The whole dump: the lines joined by newlines. */
  function Dump<K, V>(t: seq<Chain<K, V>>, keyStr: K -> string, valStr: V -> string): string
  {
    Join(Lines(t, keyStr, valStr), "\n")
  }

  /** No key or value of the table prints with a newline in it. */
  ghost predicate PrintsOnOneLine<K, V>(t: seq<Chain<K, V>>, keyStr: K -> string, valStr: V -> string)
  {
    forall i, j | 0 <= i < |t| && 0 <= j < |t[i]| ::
      '\n' !in keyStr(t[i][j].0) && '\n' !in valStr(t[i][j].1)
  }

  lemma LineAvoidsNewline<K, V>(i: nat, c: Chain<K, V>, keyStr: K -> string, valStr: V -> string)
    requires forall j | 0 <= j < |c| :: '\n' !in keyStr(c[j].0) && '\n' !in valStr(c[j].1)
    ensures '\n' !in BucketLine(i, c, keyStr, valStr)
  {
    var items := Items(c, keyStr, valStr);
    forall j | 0 <= j < |items| ensures '\n' !in items[j] {
      assert items[j] == keyStr(c[j].0) + ": " + valStr(c[j].1);
    }
    JoinAvoids(items, " -> ", '\n');
    assert '\n' !in NatStr(i);
  }

  /**
   * When keys and values print on one line, the dump has exactly one line
   * per bucket, in bucket order: line `i` starts with `Bucket <i>: ` and
   * continues with `Empty` or with the items of chain `i`.
   */
  lemma DumpLines<K, V>(t: seq<Chain<K, V>>, keyStr: K -> string, valStr: V -> string)
    requires |t| > 0
    requires PrintsOnOneLine(t, keyStr, valStr)
    ensures |Split(Dump(t, keyStr, valStr), '\n')| == |t|
    ensures forall i | 0 <= i < |t| :: Split(Dump(t, keyStr, valStr), '\n')[i] == BucketLine(i, t[i], keyStr, valStr)
  {
    var lines := Lines(t, keyStr, valStr);
    forall i | 0 <= i < |lines| ensures '\n' !in lines[i] {
      LineAvoidsNewline(i, t[i], keyStr, valStr);
    }
    SplitJoin(lines, '\n');
  }

  /** A line ends in `Empty` after its prefix exactly when its bucket is empty. */
  lemma EmptyMarker<K, V>(i: nat, c: Chain<K, V>, keyStr: K -> string, valStr: V -> string)
    ensures var line := BucketLine(i, c, keyStr, valStr);
            |line| >= |LineHead(i)| && line[..|LineHead(i)|] == LineHead(i) &&
            (line[|LineHead(i)|..] == "Empty" <==> c == [])
  {
    var line := BucketLine(i, c, keyStr, valStr);
    var h := LineHead(i);
    if c != [] {
      var rest := Join(Items(c, keyStr, valStr), " -> ");
      assert line[|h|..] == rest;
      var first := ItemText(c[0], keyStr, valStr);
      assert first[|keyStr(c[0].0)|] == ':';
      JoinHasColon(Items(c, keyStr, valStr), " -> ");
      assert ':' !in "Empty";
    }
  }

  lemma JoinHasColon(parts: seq<string>, sep: string)
    requires |parts| > 0 && ':' in parts[0]
    ensures ':' in Join(parts, sep)
  {
    if |parts| > 1 {
      var p := parts[0];
      assert Join(parts, sep) == p + (sep + Join(parts[1..], sep));
      var x :| 0 <= x < |p| && p[x] == ':';
      assert Join(parts, sep)[x] == ':';
    }
  }
}
