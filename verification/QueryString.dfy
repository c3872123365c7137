/** `Request::GetQueryString` (`http/request.cc`). */
module QueryStrings {
  import opened Options
  import opened StringUtils

  /** `t` stands at position `j` of `s`. */
  predicate At(s: string, t: string, j: nat) {
    j + |t| <= |s| && s[j..j + |t|] == t
  }

  /** To stand at a position is to be what follows a text of that length. */
  lemma AtExactly(s: string, t: string, j: nat)
    ensures At(s, t, j) <==> exists a, b :: s == a + t + b && |a| == j
  {
    if At(s, t, j) {
      assert s == s[..j] + t + s[j + |t|..];
    }
    forall a, b | s == a + t + b && |a| == j ensures At(s, t, j) {
      assert (a + t + b)[j..j + |t|] == t;
    }
  }

  /** `h2o_strstr`: the first place at or after `from` where `t` stands, or -1. */
  function FindText(s: string, t: string, from: nat): (i: int)
    requires from <= |s|
    ensures i == -1 || (from <= i <= |s| && At(s, t, i))
    ensures forall j: nat :: from <= j && (i == -1 || j < i) ==> !At(s, t, j)
    decreases |s| - from
  {
    if At(s, t, from) then from
    else if from == |s| then -1
    else FindText(s, t, from + 1)
  }

  predicate Occurs(t: string, s: string) {
    FindText(s, t, 0) != -1
  }

  lemma OccursExactly(t: string, s: string)
    ensures Occurs(t, s) <==> exists a, b :: s == a + t + b
  {
    hide At;
    if Occurs(t, s) {
      AtExactly(s, t, FindText(s, t, 0));
    }
    forall a, b | s == a + t + b ensures Occurs(t, s) {
      AtExactly(s, t, |a|);
    }
  }

  /** The text from `start` to the next `&`. */
  function ValueAt(query: string, start: nat): string
    requires start <= |query|
  {
    var end := Find(query, '&', start);
    if end == -1 then query[start..] else query[start..end]
  }

  /** The value behind the first occurrence of `name`, if an `=` follows it. */
  function QueryValue(query: string, name: string): string {
    var offset := FindText(query, name, 0);
    if offset != -1 && offset + |name| < |query| && query[offset + |name|] == '=' then
      ValueAt(query, offset + |name| + 1)
    else ""
  }

  /** The name is mentioned behind `before`, and nowhere earlier; `behind` follows it. */
  ghost predicate FirstMention(q: string, name: string, before: string, behind: string) {
    q == before + name + behind && forall a, b :: q == a + name + b ==> |before| <= |a|
  }

  /** What stands behind the name gives the value: `=`, the value, and then nothing or another pair. */
  ghost predicate Gives(behind: string, value: string) {
    if behind != "" && behind[0] == '='
    then exists rest :: behind == "=" + value + rest && '&' !in value && (rest == "" || rest[0] == '&')
    else value == ""
  }

  lemma FoundInside(s: string, t: string)
    ensures FindText(s, t, 0) != -1 ==> FindText(s, t, 0) + |t| <= |s|
  {
    hide FindText;
  }

  lemma FoundFirst(s: string, t: string, a: string, b: string)
    requires FirstMention(s, t, a, b)
    ensures FindText(s, t, 0) == |a|
  {
    hide At, FindText;
    AtExactly(s, t, |a|);
    AtExactly(s, t, FindText(s, t, 0));
  }

  lemma ValueUpToNext(q: string, start: nat)
    requires start <= |q|
    ensures var v := ValueAt(q, start);
            '&' !in v && exists rest :: q[start..] == v + rest && (rest == "" || rest[0] == '&')
  {
    hide Find;
    var v, end := ValueAt(q, start), Find(q, '&', start);
    var rest := if end == -1 then "" else q[end..];
    assert q[start..] == v + rest;
  }

  lemma FirstMentionGives(q: string, name: string, a: string, b: string)
    requires FirstMention(q, name, a, b)
    ensures Gives(b, QueryValue(q, name))
  {
    hide At, FindText, Find, ValueAt;
    FoundFirst(q, name, a, b);
    assert q[|a| + |name|..] == b;
    if b != "" && b[0] == '=' {
      assert q[|a| + |name|] == '=' && q[|a| + |name| + 1..] == b[1..];
      ValueUpToNext(q, |a| + |name| + 1);
      var v := QueryValue(q, name);
      var rest :| b[1..] == v + rest && (rest == "" || rest[0] == '&');
      assert b == "=" + v + rest;
    } else if b != "" {
      assert q[|a| + |name|] == b[0];
    }
  }

  /** What `QueryValue` answers, in terms of what precedes and what follows the first mention. */
  lemma AnswerExactly(q: string, name: string)
    ensures (forall a, b :: q != a + name + b) ==> QueryValue(q, name) == ""
    ensures forall a, b :: FirstMention(q, name, a, b) ==> Gives(b, QueryValue(q, name))
  {
    hide FirstMention, Gives, FindText;
    OccursExactly(name, q);
    forall a, b | FirstMention(q, name, a, b) ensures Gives(b, QueryValue(q, name)) {
      FirstMentionGives(q, name, a, b);
    }
  }

  /**
   * `query` is what follows the `?`, if the path has one. The byte behind the query is taken to
   * be no `=`. The value stands behind the first mention of the name and its `=`, and reaches to
   * the next `&` or the end.
   */
  method GetQueryString(query: Option<string>, name: string) returns (value: string)
    ensures query.None? ==> value == ""
    ensures query.Some? && (forall a, b :: query.value != a + name + b) ==> value == ""
    ensures query.Some? ==> forall a, b :: FirstMention(query.value, name, a, b) ==> Gives(b, value)
    ensures query.Some? ==> value == QueryValue(query.value, name)
  {
    hide FindText, At, Find, FirstMention, Gives;
    if query.None? {
      return "";
    }
    var queryString := query.value;
    AnswerExactly(queryString, name);
    var offset := FindText(queryString, name, 0);
    if offset == -1 {
      return "";
    }
    FoundInside(queryString, name);
    var found := offset + |name|;
    if found == |queryString| || queryString[found] != '=' {
      return "";
    }
    found := found + 1;
    var end := Find(queryString, '&', found);
    if end == -1 {
      end := |queryString|;
    }
    value := queryString[found..end];
    assert value == QueryValue(queryString, name);
  }

  datatype Pair = Pair(key: string, value: string)

  function PrintPair(p: Pair): string {
    p.key + ['='] + p.value
  }

  function Print(pairs: seq<Pair>): string {
    if pairs == [] then ""
    else if |pairs| == 1 then PrintPair(pairs[0])
    else PrintPair(pairs[0]) + ['&'] + Print(pairs[1..])
  }

  predicate Plain(s: string) {
    '&' !in s && '=' !in s
  }

  ghost predicate PlainPairs(pairs: seq<Pair>) {
    forall p :: p in pairs ==> Plain(p.key) && Plain(p.value)
  }

  predicate Mentions(p: Pair, name: string) {
    Occurs(name, p.key) || Occurs(name, p.value)
  }

  /** The first mention of the name in the pair is the end of its key. */
  predicate EndsKey(p: Pair, name: string) {
    Occurs(name, p.key) && FindText(p.key, name, 0) + |name| == |p.key|
  }

  /**
   * The pair that answers for the name: the first pair that mentions it, provided that its key
   * ends with the first mention.
   */
  function AnsweringPair(pairs: seq<Pair>, name: string): (i: Option<nat>)
    ensures i.Some? ==> i.value < |pairs|
  {
    if pairs == [] then None
    else if Mentions(pairs[0], name) then (if EndsKey(pairs[0], name) then Some(0) else None)
    else
      match AnsweringPair(pairs[1..], name)
      case None => None
      case Some(i) => Some(i + 1)
  }

  function ValueOfPair(pairs: seq<Pair>, i: Option<nat>): string
    requires i.Some? ==> i.value < |pairs|
  {
    if i.None? then "" else pairs[i.value].value
  }

  lemma FirstText(s: string, t: string, i: nat)
    requires At(s, t, i) && forall j: nat :: j < i ==> !At(s, t, j)
    ensures FindText(s, t, 0) == i
  {
  }

  lemma AtInPrefix(a: string, b: string, t: string, j: nat)
    requires j + |t| <= |a|
    ensures At(a + b, t, j) <==> At(a, t, j)
  {
    assert (a + b)[j..j + |t|] == a[j..j + |t|];
  }

  lemma AtBehind(a: string, b: string, t: string, j: nat)
    ensures At(a + b, t, |a| + j) <==> At(b, t, j)
  {
    if j + |t| <= |b| {
      assert (a + b)[|a| + j..|a| + j + |t|] == b[j..j + |t|];
    }
  }

  /** An occurrence cannot cross a character that the text does not have. */
  lemma AtAcross(a: string, c: char, b: string, t: string, j: nat)
    requires c !in t && j <= |a| < j + |t|
    ensures !At(a + [c] + b, t, j)
  {
    var s := a + [c] + b;
    if j + |t| <= |s| {
      assert s[j..j + |t|][|a| - j] == c;
      assert t[|a| - j] in t;
    }
  }

  /** A first occurrence inside a prefix is the first one overall. */
  lemma FoundInPrefix(a: string, b: string, t: string)
    requires Occurs(t, a)
    ensures FindText(a + b, t, 0) == FindText(a, t, 0)
  {
    var i := FindText(a, t, 0);
    AtInPrefix(a, b, t, i);
    forall j: nat | j < i ensures !At(a + b, t, j) {
      AtInPrefix(a, b, t, j);
    }
    FirstText(a + b, t, i);
  }

  lemma FoundBehind(a: string, c: char, b: string, t: string)
    requires !Occurs(t, a) && c !in t
    ensures var i, k := FindText(b, t, 0), FindText(a + [c] + b, t, 0);
            if i == -1 then k == -1 else k == |a| + 1 + i
  {
    var s := a + [c] + b;
    forall j: nat | j <= |a| ensures !At(s, t, j) {
      if j + |t| <= |a| {
        assert s == a + ([c] + b);
        AtInPrefix(a, [c] + b, t, j);
      } else {
        AtAcross(a, c, b, t, j);
      }
    }
    forall j: nat ensures At(s, t, |a| + 1 + j) <==> At(b, t, j) {
      AtBehind(a + [c], b, t, j);
    }
    var i := FindText(b, t, 0);
    forall j: nat | i == -1 || j < |a| + 1 + i ensures !At(s, t, j) {
      if j > |a| {
        assert At(s, t, |a| + 1 + (j - |a| - 1)) <==> At(b, t, j - |a| - 1);
      }
    }
    if i != -1 {
      FirstText(s, t, |a| + 1 + i);
    }
  }

  lemma ValueEnds(a: string, v: string, rest: string)
    requires '&' !in v && (rest == "" || rest[0] == '&')
    ensures ValueAt(a + v + rest, |a|) == v
  {
    var s := a + v + rest;
    assert s[|a|..|a| + |v|] == v;
    if rest == "" {
      assert s[|a|..] == v;
    } else {
      assert s[|a| + |v|] == '&';
      FindFirst(s, '&', |a|, |a| + |v|);
    }
  }

  lemma ValueBehind(a: string, b: string, start: nat)
    requires start <= |b|
    ensures ValueAt(a + b, |a| + start) == ValueAt(b, start)
  {
    var s, i := a + b, Find(b, '&', start);
    assert s[|a| + start..] == b[start..];
    if i != -1 {
      assert s[|a| + start..|a| + i] == b[start..i];
      FindFirst(s, '&', |a| + start, |a| + i);
    }
  }

  lemma KeyMentions(key: string, name: string)
    requires Occurs(name, key)
    ensures 0 <= FindText(key, name, 0) && FindText(key, name, 0) + |name| <= |key|
  {
  }

  lemma NotInPlain(s: string)
    requires Plain(s)
    ensures '&' !in s && '=' !in s
    ensures forall j :: 0 <= j < |s| ==> s[j] != '='
  {
    assert forall j :: 0 <= j < |s| ==> s[j] in s;
  }

  /** The first `=` of the query stands at `n`, and the name ends at or before it. */
  lemma DecidedByKey(q: string, name: string, i: nat, n: nat)
    requires FindText(q, name, 0) == i && i + |name| <= n < |q|
    requires q[n] == '=' && forall j :: 0 <= j < n ==> q[j] != '='
    ensures QueryValue(q, name) == if i + |name| == n then ValueAt(q, n + 1) else ""
  {
    hide FindText, Find, ValueAt, At;
  }

  lemma Printed(p: Pair, rest: string)
    requires Plain(p.key)
    ensures var q, tail := PrintPair(p) + rest, ['='] + p.value + rest;
            && q == p.key + tail == p.key + ['='] + p.value + rest
            && |p.key| < |q| && q[|p.key|] == '=' && forall j :: 0 <= j < |p.key| ==> q[j] != '='
  {
    NotInPlain(p.key);
  }

  /** The answer when the first key mentions the name. */
  lemma AnsweredByKey(p: Pair, rest: string, name: string)
    requires Plain(p.key) && Plain(p.value) && Occurs(name, p.key) && (rest == "" || rest[0] == '&')
    ensures QueryValue(PrintPair(p) + rest, name) ==
            if FindText(p.key, name, 0) + |name| == |p.key| then p.value else ""
  {
    hide *;
    Printed(p, rest);
    KeyMentions(p.key, name);
    FoundInPrefix(p.key, ['='] + p.value + rest, name);
    NotInPlain(p.value);
    ValueEnds(p.key + ['='], p.value, rest);
    DecidedByKey(PrintPair(p) + rest, name, FindText(p.key, name, 0), |p.key|);
  }

  lemma NoSignBehind(key: string, v: string, rest: string, at: nat)
    requires (forall j :: 0 <= j < |v| ==> v[j] != '=') && (rest == "" || rest[0] == '&') && at <= |v|
    ensures var q := key + ['='] + (v + rest);
            |key| + 1 + at == |q| || (|key| + 1 + at < |q| && q[|key| + 1 + at] != '=')
  {
    var q := key + ['='] + (v + rest);
    assert |key| + 1 + at < |q| ==> q[|key| + 1 + at] == (v + rest)[at];
  }

  /** Without an `=` behind the name there is no answer. */
  lemma NoAnswer(q: string, name: string, i: nat)
    requires FindText(q, name, 0) == i && (i + |name| == |q| || (i + |name| < |q| && q[i + |name|] != '='))
    ensures QueryValue(q, name) == ""
  {
    hide FindText, Find, ValueAt, At;
  }

  /** The answer when the first value mentions the name and its key does not. */
  lemma AnsweredByValue(p: Pair, rest: string, name: string)
    requires Plain(p.key) && Plain(p.value) && Plain(name)
    requires !Occurs(name, p.key) && Occurs(name, p.value) && (rest == "" || rest[0] == '&')
    ensures QueryValue(PrintPair(p) + rest, name) == ""
  {
    hide *;
    Printed(p, rest);
    NotInPlain(name);
    FoundBehind(p.key, '=', p.value + rest, name);
    FoundInPrefix(p.value, rest, name);
    KeyMentions(p.value, name);
    NotInPlain(p.value);
    var i := FindText(p.value, name, 0);
    assert p.key + ['='] + p.value + rest == p.key + ['='] + (p.value + rest);
    NoSignBehind(p.key, p.value, rest, i + |name|);
    NoAnswer(PrintPair(p) + rest, name, |p.key| + 1 + i);
  }

  lemma AnsweredLater(a: string, c: char, b: string, name: string)
    requires !Occurs(name, a) && c !in name
    ensures QueryValue(a + [c] + b, name) == QueryValue(b, name)
  {
    hide FindText, Find, ValueAt;
    var s := a + [c] + b;
    FoundBehind(a, c, b, name);
    var i := FindText(b, name, 0);
    if i != -1 && i + |name| < |b| {
      assert s[|a| + 1 + i + |name|] == b[i + |name|];
      ValueBehind(a + [c], b, i + |name| + 1);
    }
  }

  lemma NothingToAnswer(name: string)
    ensures QueryValue("", name) == ""
  {
  }

  lemma NotInValue(v: string, name: string)
    requires !Occurs(name, v)
    ensures QueryValue(v, name) == ""
  {
  }

  /** `GetQueryString` on any printed query, for any plain name. */
  lemma {:induction false} AnswersPrinted(pairs: seq<Pair>, name: string)
    requires PlainPairs(pairs) && Plain(name)
    ensures QueryValue(Print(pairs), name) == ValueOfPair(pairs, AnsweringPair(pairs, name))
  {
    hide FindText, Find, QueryValue, Occurs;
    if pairs == [] {
      NothingToAnswer(name);
    } else {
      var p := pairs[0];
      assert p in pairs;
      var rest := if |pairs| == 1 then "" else ['&'] + Print(pairs[1..]);
      assert Print(pairs) == PrintPair(p) + rest;
      if Occurs(name, p.key) {
        AnsweredByKey(p, rest, name);
      } else if Occurs(name, p.value) {
        AnsweredByValue(p, rest, name);
      } else {
        assert PrintPair(p) + rest == p.key + ['='] + (p.value + rest);
        AnsweredLater(p.key, '=', p.value + rest, name);
        if |pairs| == 1 {
          assert p.value + rest == p.value && Print(pairs[1..]) == "";
          NotInValue(p.value, name);
        } else {
          assert p.value + rest == p.value + ['&'] + Print(pairs[1..]);
          AnsweredLater(p.value, '&', Print(pairs[1..]), name);
          AnswersPrinted(pairs[1..], name);
        }
      }
    }
  }

  lemma OccursInItself(s: string)
    ensures FindText(s, s, 0) == 0
  {
    assert At(s, s, 0);
  }

  /** A pair answers for a name exactly when it is the first to mention it and its key ends with the mention. */
  lemma {:induction false} AnswersExactly(pairs: seq<Pair>, name: string, j: nat)
    requires j < |pairs|
    ensures AnsweringPair(pairs, name) == Some(j) <==>
            EndsKey(pairs[j], name) && forall i :: 0 <= i < j ==> !Mentions(pairs[i], name)
  {
    hide Occurs, FindText;
    if j > 0 && !Mentions(pairs[0], name) {
      AnswersExactly(pairs[1..], name, j - 1);
      forall i | 0 < i < j ensures Mentions(pairs[i], name) <==> Mentions(pairs[1..][i - 1], name) {
      }
    }
  }

  lemma FirstIsFirst(s: string, t: string, a: string)
    requires a <= s && FindText(s, t, 0) == |a| && |a| + |t| == |s|
    ensures FirstMention(s, t, a, "")
  {
    hide FindText;
    forall c, d | s == c + t + d ensures |a| <= |c| {
      AtExactly(s, t, |c|);
    }
    assert s == a + t + "";
  }

  lemma EndsKeyExactly(p: Pair, name: string)
    ensures EndsKey(p, name) <==> exists a :: FirstMention(p.key, name, a, "")
  {
    hide At, FindText;
    if EndsKey(p, name) {
      var a := p.key[..FindText(p.key, name, 0)];
      assert At(p.key, name, |a|);
      FirstIsFirst(p.key, name, a);
    }
    forall a | FirstMention(p.key, name, a, "") ensures EndsKey(p, name) {
      FoundFirst(p.key, name, a, "");
    }
  }

  lemma MentionsExactly(p: Pair, name: string)
    ensures Mentions(p, name) <==> exists a, b :: p.key == a + name + b || p.value == a + name + b
  {
    hide Occurs;
    OccursExactly(name, p.key);
    OccursExactly(name, p.value);
  }

  lemma NoneMentions(pairs: seq<Pair>, j: nat, name: string)
    requires j < |pairs|
    ensures (forall i :: 0 <= i < j ==> !Mentions(pairs[i], name)) <==>
            forall i, a, b :: 0 <= i < j ==> pairs[i].key != a + name + b && pairs[i].value != a + name + b
  {
    hide Mentions;
    forall i | 0 <= i < j
      ensures Mentions(pairs[i], name) <==>
              exists a, b :: pairs[i].key == a + name + b || pairs[i].value == a + name + b
    {
      MentionsExactly(pairs[i], name);
    }
  }

  /**
   * Printing is inverted. The value found for any plain name is that of the answering pair; the
   * pair that answers for a key is its own exactly when no earlier key or value mentions the key;
   * and then the value found is its value.
   */
  lemma InvertsPrinting(pairs: seq<Pair>, j: nat)
    requires PlainPairs(pairs) && j < |pairs|
    ensures QueryValue(Print(pairs), pairs[j].key) == ValueOfPair(pairs, AnsweringPair(pairs, pairs[j].key))
    ensures AnsweringPair(pairs, pairs[j].key) == Some(j) <==>
            forall i, a, b :: 0 <= i < j ==>
              pairs[i].key != a + pairs[j].key + b && pairs[i].value != a + pairs[j].key + b
    ensures (forall i, a, b :: 0 <= i < j ==>
              pairs[i].key != a + pairs[j].key + b && pairs[i].value != a + pairs[j].key + b) ==>
            QueryValue(Print(pairs), pairs[j].key) == pairs[j].value
  {
    hide Mentions, FindText, QueryValue, Print, AnsweringPair;
    assert pairs[j] in pairs;
    AnswersPrinted(pairs, pairs[j].key);
    OccursInItself(pairs[j].key);
    AnswersExactly(pairs, pairs[j].key, j);
    NoneMentions(pairs, j, pairs[j].key);
  }

  lemma IdEndsXid(p: Pair)
    requires p.key == "xid"
    ensures EndsKey(p, "id") && Mentions(p, "id")
  {
    assert p.key[0..2] == "xi" && p.key[1..3] == "id";
    FirstText(p.key, "id", 1);
  }

  /** Asking `xid=1&id=2` for `id` gives the value of `xid`. */
  lemma EarlierKeyAnswers()
    ensures QueryValue(Print([Pair("xid", "1"), Pair("id", "2")]), "id") == "1"
  {
    hide Print, QueryValue, EndsKey, Mentions;
    var pairs := [Pair("xid", "1"), Pair("id", "2")];
    AnswersPrinted(pairs, "id");
    IdEndsXid(pairs[0]);
  }
}
