/** Splitting, joining and cleaning of strings (`utils/string_utils.h`). */
module StringUtils {

  /** The position of the first `c` at or after `from`, or -1 (`npos`). */
  function Find(s: string, c: char, from: nat): (i: int)
    requires from <= |s|
    ensures i == -1 ==> c !in s[from..]
    ensures i != -1 ==> from <= i < |s| && s[i] == c && c !in s[from..i]
    decreases |s| - from
  {
    if from == |s| then -1
    else if s[from] == c then from
    else Find(s, c, from + 1)
  }

  lemma {:induction false} FindFirst(s: string, c: char, from: nat, i: nat)
    requires from <= i < |s| && s[i] == c && c !in s[from..i]
    ensures Find(s, c, from) == i
    decreases i - from
  {
    if from < i {
      assert s[from..i][0] == s[from];
      assert s[from..i][1..] == s[from + 1..i];
      FindFirst(s, c, from + 1, i);
    }
  }

  /** The tokens of `s`, read one character at a time. */
  function Split(s: string, d: char): (ts: seq<string>)
    ensures |ts| >= 1
  {
    if s == "" then [""]
    else
      var ts := Split(s[1..], d);
      if s[0] == d then [""] + ts else [[s[0]] + ts[0]] + ts[1..]
  }

  function Join(ts: seq<string>, d: char): string
    requires |ts| >= 1
  {
    if |ts| == 1 then ts[0] else ts[0] + [d] + Join(ts[1..], d)
  }

  ghost predicate DelimiterFree(ts: seq<string>, d: char) {
    forall t :: t in ts ==> d !in t
  }

  lemma {:induction false} SplitWhole(s: string, d: char)
    requires d !in s
    ensures Split(s, d) == [s]
  {
    if s != "" {
      assert s[0] in s;
      SplitWhole(s[1..], d);
      assert [s[0]] + s[1..] == s;
    }
  }

  /** Cutting at the first delimiter is the first token and the split of the rest. */
  lemma {:induction false} SplitCut(a: string, b: string, d: char)
    requires d !in a
    ensures Split(a + [d] + b, d) == [a] + Split(b, d)
  {
    var s := a + [d] + b;
    if a == "" {
      assert s[1..] == b;
    } else {
      assert s[1..] == a[1..] + [d] + b;
      SplitCut(a[1..], b, d);
      assert [s[0]] + a[1..] == a;
    }
  }

  lemma {:induction false} SplitIsDelimiterFree(s: string, d: char)
    ensures DelimiterFree(Split(s, d), d)
  {
    if s != "" {
      SplitIsDelimiterFree(s[1..], d);
    }
  }

  lemma {:induction false} JoinSplit(s: string, d: char)
    ensures Join(Split(s, d), d) == s
  {
    if s != "" {
      JoinSplit(s[1..], d);
      var ts := Split(s[1..], d);
      if s[0] == d {
        assert ([""] + ts)[1..] == ts;
      } else {
        var us := [[s[0]] + ts[0]] + ts[1..];
        assert us[1..] == ts[1..];
        assert Join(us, d) == [s[0]] + Join(ts, d);
      }
    }
  }

  lemma {:induction false} SplitJoin(ts: seq<string>, d: char)
    requires |ts| >= 1 && DelimiterFree(ts, d)
    ensures Split(Join(ts, d), d) == ts
  {
    if |ts| == 1 {
      SplitWhole(ts[0], d);
    } else {
      SplitJoin(ts[1..], d);
      SplitCut(ts[0], Join(ts[1..], d), d);
    }
  }

  /** The remaining text is split at the delimiter that `Find` reports. */
  lemma SplitFrom(s: string, d: char, start: nat)
    requires start <= |s|
    ensures var end := Find(s, d, start);
            Split(s[start..], d) ==
            if end == -1 then [s[start..]] else [s[start..end]] + Split(s[end + 1..], d)
  {
    var end := Find(s, d, start);
    if end == -1 {
      SplitWhole(s[start..], d);
    } else {
      SplitCut(s[start..end], s[end + 1..], d);
      assert s[start..] == s[start..end] + [d] + s[end + 1..];
    }
  }

  lemma NoTokensYet(s: string, d: char)
    ensures [] + Split(s[0..], d) == Split(s, d)
  {
    assert s[0..] == s;
  }

  /** One more token is taken off the text, or the rest is the last one. */
  lemma NextToken(done: seq<string>, s: string, d: char, start: nat)
    requires start <= |s|
    ensures var end := Find(s, d, start);
            if end == -1 then done + Split(s[start..], d) == done + [s[start..]]
            else done + Split(s[start..], d) == done + [s[start..end]] + Split(s[end + 1..], d)
  {
    hide Split, Find;
    SplitFrom(s, d, start);
  }

  method SplitString(str: string, delimiter: char) returns (tokens: seq<string>)
    ensures tokens == Split(str, delimiter)
  {
    hide Split, Find;
    tokens := [];
    var start := 0;
    var end := Find(str, delimiter, 0);
    NoTokensYet(str, delimiter);
    while end != -1
      invariant 0 <= start <= |str| && end == Find(str, delimiter, start)
      invariant tokens + Split(str[start..], delimiter) == Split(str, delimiter)
      decreases |str| - start
    {
      NextToken(tokens, str, delimiter, start);
      tokens := tokens + [str[start..end]];
      start := end + 1;
      end := Find(str, delimiter, start);
    }
    NextToken(tokens, str, delimiter, start);
    tokens := tokens + [str[start..]];
  }

  predicate IsSpace(c: char) {
    c == ' ' || 9 <= c as int <= 13
  }

  function RemoveSpaces(s: string): string {
    if s == "" then ""
    else if IsSpace(s[0]) then RemoveSpaces(s[1..])
    else [s[0]] + RemoveSpaces(s[1..])
  }

  function RemoveSpacesAll(ts: seq<string>): seq<string> {
    seq(|ts|, i requires 0 <= i < |ts| => RemoveSpaces(ts[i]))
  }

  lemma RemoveSpacesAllLast(before: seq<string>, done: seq<string>, t: string)
    ensures before + RemoveSpacesAll(done) + [RemoveSpaces(t)] == before + RemoveSpacesAll(done + [t])
  {
    hide RemoveSpaces;
  }

  lemma {:induction false} RemoveSpacesAppend(a: string, b: string)
    ensures RemoveSpaces(a + b) == RemoveSpaces(a) + RemoveSpaces(b)
  {
    if a == "" {
      assert a + b == b;
    } else {
      assert (a + b)[1..] == a[1..] + b;
      RemoveSpacesAppend(a[1..], b);
    }
  }

  /**
   * Cleaning keeps each character that is no space, in order: it stands where as many kept
   * characters precede it as before, and nothing else is left.
   */
  lemma {:induction false} RemoveSpacesKeeps(s: string, i: nat)
    requires i < |s|
    ensures var before, after := RemoveSpaces(s[..i]), RemoveSpaces(s[..i + 1]);
            && before <= after <= RemoveSpaces(s)
            && after == before + if IsSpace(s[i]) then "" else [s[i]]
  {
    RemoveSpacesAppend(s[..i], [s[i]]);
    RemoveSpacesAppend(s[..i + 1], s[i + 1..]);
    assert s[..i + 1] == s[..i] + [s[i]] && s == s[..i + 1] + s[i + 1..];
    assert RemoveSpaces("") == "" && [s[i]][1..] == "";
  }

  /** The characters of `isspace`: the blank, tab, line feed, vertical tab, form feed and return. */
  lemma SpaceCharacters(c: char)
    ensures IsSpace(c) <==> c in " \t\n\U{0B}\U{0C}\r"
  {
    assert c == c as int as char;
  }

  /** A text is unchanged by cleaning exactly when it has none of the six space characters. */
  lemma {:induction false} RemoveSpacesUnchanged(s: string)
    ensures |RemoveSpaces(s)| <= |s|
    ensures RemoveSpaces(s) == s <==> forall c :: c in s ==> c !in " \t\n\U{0B}\U{0C}\r"
  {
    if s != "" {
      RemoveSpacesUnchanged(s[1..]);
      SpaceCharacters(s[0]);
      if IsSpace(s[0]) {
        assert s[0] in s;
      } else {
        assert ([s[0]] + RemoveSpaces(s[1..]))[1..] == RemoveSpaces(s[1..]);
        assert forall c :: c in s <==> c == s[0] || c in s[1..];
      }
    }
  }

  /** The callback that `AddRoute` hands to the second overload: it cleans and collects parts. */
  class PartCollector {
    var parts: seq<string>
    /** The parts as they were handed over. */
    ghost var received: seq<string>

    constructor ()
      ensures parts == [] && received == []
    {
      parts, received := [], [];
    }

    method Accept(part: string)
      modifies this
      ensures received == old(received) + [part]
      ensures parts == old(parts) + [RemoveSpaces(part)]
    {
      received := received + [part];
      parts := parts + [RemoveSpaces(part)];
    }
  }

  lemma NoPartsYet(received: seq<string>, parts: seq<string>)
    ensures received == received + [] && parts == parts + RemoveSpacesAll([])
  {
  }

  lemma TokenHandedOver(received: seq<string>, parts: seq<string>, done: seq<string>, t: string)
    ensures received + done + [t] == received + (done + [t])
    ensures parts + RemoveSpacesAll(done) + [RemoveSpaces(t)] == parts + RemoveSpacesAll(done + [t])
  {
    RemoveSpacesAllLast(parts, done, t);
  }

  /** The callback overload hands over the same tokens, in the same order, as `SplitString`. */
  method SplitStringEach(str: string, delimiter: char, callback: PartCollector)
    modifies callback
    ensures callback.received == old(callback.received) + Split(str, delimiter)
    ensures callback.parts == old(callback.parts) + RemoveSpacesAll(Split(str, delimiter))
  {
    hide Split, Find, RemoveSpaces, RemoveSpacesAll;
    var start := 0;
    var end := Find(str, delimiter, 0);
    ghost var done: seq<string> := [];
    NoTokensYet(str, delimiter);
    NoPartsYet(callback.received, callback.parts);
    while end != -1
      invariant 0 <= start <= |str| && end == Find(str, delimiter, start)
      invariant done + Split(str[start..], delimiter) == Split(str, delimiter)
      invariant callback.received == old(callback.received) + done
      invariant callback.parts == old(callback.parts) + RemoveSpacesAll(done)
      decreases |str| - start
    {
      NextToken(done, str, delimiter, start);
      TokenHandedOver(old(callback.received), old(callback.parts), done, str[start..end]);
      callback.Accept(str[start..end]);
      done := done + [str[start..end]];
      start := end + 1;
      end := Find(str, delimiter, start);
    }
    NextToken(done, str, delimiter, start);
    TokenHandedOver(old(callback.received), old(callback.parts), done, str[start..]);
    callback.Accept(str[start..]);
  }
}
