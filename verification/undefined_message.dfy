/**
  Extracting the missing variable's name from an undefined-variable error
  message: split the message at the single-quote character and take the
  second piece, i.e. the text between the first and the second quote (or to
  the end of the message when there is only one quote).

  The extraction is partial: a message without any quote splits into a single
  piece, and asking for the second one raises an index error. `MissingName`
  makes that explicit as its precondition.
 */
module UndefinedMessage {

  const Quote: char := '\''

  /** Position of the first occurrence of `c` in `s`. */
  function FirstIndex(s: string, c: char): (i: nat)
    requires c in s
    ensures i < |s| && s[i] == c
    ensures c !in s[..i]
    decreases |s|
  {
    if s[0] == c then 0
    else
      assert s == [s[0]] + s[1..];
      var j := FirstIndex(s[1..], c);
      assert s[..j + 1] == [s[0]] + s[1..][..j];
      j + 1
  }

  /** Joins the pieces with one separator between neighbours. */
  function Join(parts: seq<string>, sep: char): (s: string)
    requires |parts| >= 1
    decreases |parts|
  {
    if |parts| == 1 then parts[0]
    else parts[0] + [sep] + Join(parts[1..], sep)
  }

  /** Splitting at every occurrence of a one-character separator: one piece
      more than there are separators, no piece contains the separator, and
      joining the pieces gives the text back. */
  function Split(s: string, sep: char): (parts: seq<string>)
    ensures |parts| == multiset(s)[sep] + 1
    ensures forall k :: 0 <= k < |parts| ==> sep !in parts[k]
    ensures Join(parts, sep) == s
    decreases |s|
  {
    if sep !in s then [s]
    else
      var i := FirstIndex(s, sep);
      var rest := Split(s[i + 1..], sep);
      assert s == s[..i] + [sep] + s[i + 1..];
      assert multiset(s) == multiset(s[..i]) + multiset([sep]) + multiset(s[i + 1..]);
      [s[..i]] + rest
  }

  /** The first index is the only quote position with no quote before it. */
  lemma FirstIndexAt(s: string, c: char, i: nat)
    requires i < |s| && s[i] == c
    requires c !in s[..i]
    ensures c in s
    ensures FirstIndex(s, c) == i
  {
  }

  /** Splitting a text that starts with a separator-free piece and a
      separator yields that piece, then the split of the rest. */
  lemma SplitAfterFirst(p: string, sep: char, tail: string)
    requires sep !in p
    ensures Split(p + [sep] + tail, sep) == [p] + Split(tail, sep)
  {
    var s := p + [sep] + tail;
    assert s[..|p|] == p;
    FirstIndexAt(s, sep, |p|);
    assert s[|p| + 1..] == tail;
  }

  /** The other round trip: pieces free of the separator are recovered by
      splitting their join. */
  lemma {:induction false} SplitJoin(parts: seq<string>, sep: char)
    requires |parts| >= 1
    requires forall k :: 0 <= k < |parts| ==> sep !in parts[k]
    ensures Split(Join(parts, sep), sep) == parts
    decreases |parts|
  {
    if |parts| > 1 {
      var tail := Join(parts[1..], sep);
      assert Join(parts, sep) == parts[0] + [sep] + tail;
      SplitAfterFirst(parts[0], sep, tail);
      SplitJoin(parts[1..], sep);
      assert parts == [parts[0]] + parts[1..];
    }
  }

  /** The first piece of a split is the longest separator-free prefix. */
  lemma SplitHead(s: string, sep: char)
    ensures Split(s, sep)[0] <= s
    ensures sep !in Split(s, sep)[0]
    ensures |Split(s, sep)[0]| == |s| || s[|Split(s, sep)[0]|] == sep
  {
  }

  /** The variable name reported for an undefined-variable error: the text
      after the first quote, up to the next quote or the end. */
  function MissingName(message: string): (name: string)
    requires Quote in message
    ensures Quote !in name
    ensures name <= message[FirstIndex(message, Quote) + 1..]
    ensures var start := FirstIndex(message, Quote) + 1;
            start + |name| == |message| || message[start + |name|] == Quote
  {
    var i := FirstIndex(message, Quote);
    SplitHead(message[i + 1..], Quote);
    Split(message, Quote)[1]
  }

  /** Two separator-free prefixes that each reach a quote or the end are
      the same prefix. */
  lemma LongestQuoteFreePrefix(s: string, a: string, b: string)
    requires a <= s && b <= s
    requires Quote !in a && Quote !in b
    requires |a| == |s| || s[|a|] == Quote
    requires |b| == |s| || s[|b|] == Quote
    ensures a == b
  {
  }

  /** Reading a name back: whatever text sits between a quote-free prefix's
      closing quote and the next quote (or the end) is what is reported. */
  lemma NameBetweenQuotes(prefix: string, name: string, suffix: string)
    requires Quote !in prefix && Quote !in name
    requires suffix == [] || suffix[0] == Quote
    ensures Quote in prefix + [Quote] + name + suffix
    ensures MissingName(prefix + [Quote] + name + suffix) == name
  {
    var m := prefix + [Quote] + name + suffix;
    assert m[..|prefix|] == prefix;
    FirstIndexAt(m, Quote, |prefix|);
    var rest := m[|prefix| + 1..];
    assert rest == name + suffix;
    assert name <= rest;
    LongestQuoteFreePrefix(rest, MissingName(m), name);
  }
}
