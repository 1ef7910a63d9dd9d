/** Splitting a path at its backslashes. */
module TextUtilities {
  import opened Wire

  const DELIM: byte := 92

  /** The components of `s`, read one character at a time; `cur` holds the component under way. */
  function Components(s: Bytes, cur: Bytes): seq<Bytes>
    decreases |s|
  {
    if s == [] then Flush(cur)
    else if s[0] == DELIM then Flush(cur) + Components(s[1..], [])
    else Components(s[1..], cur + [s[0]])
  }

  function Flush(cur: Bytes): seq<Bytes> {
    if cur == [] then [] else [cur]
  }

  function Split(s: Bytes): seq<Bytes> {
    Components(s, [])
  }

  /** std::string::find: the first delimiter at or after `start`, or the end of the string. */
  method Find(s: Bytes, start: nat) returns (end: nat)
    requires start <= |s|
    ensures start <= end <= |s| && DELIM !in s[start..end]
    ensures end < |s| ==> s[end] == DELIM
  {
    end := start;
    while end < |s| && s[end] != DELIM
      invariant start <= end <= |s| && DELIM !in s[start..end]
    {
      assert s[start..end + 1] == s[start..end] + [s[end]];
      end := end + 1;
    }
  }

  method SplitToPathComponents(str: Bytes) returns (components: seq<Bytes>)
    ensures components == Split(str)
  {
    components := [];
    var start := 0;
    var end := Find(str, 0);
    while end < |str|
      invariant 0 <= start <= end <= |str| && DELIM !in str[start..end]
      invariant end < |str| ==> str[end] == DELIM
      invariant Split(str) == components + Split(str[start..])
      decreases |str| - start
    {
      var component := str[start..end];
      assert str[start..] == component + [DELIM] + str[end + 1..];
      SplitAtDelimiter(component, str[end + 1..]);
      SplitOfComponent(component);
      if component != [] {
        components := components + [component];
      }
      start := end + 1;
      end := Find(str, start);
    }
    var last := str[start..];
    SplitOfComponent(last);
    if last != [] {
      components := components + [last];
    }
  }

  lemma {:induction false} ComponentsOfRun(a: Bytes, b: Bytes, cur: Bytes)
    requires DELIM !in a
    ensures Components(a + b, cur) == Components(b, cur + a)
  {
    if a == [] {
      assert a + b == b && cur + a == cur;
    } else {
      assert (a + b)[1..] == a[1..] + b;
      assert cur + [a[0]] + a[1..] == cur + a;
      ComponentsOfRun(a[1..], b, cur + [a[0]]);
    }
  }

  /** Without a backslash, which is byte 92, a path is one component, or none if it is empty. */
  lemma {:induction false} SplitOfComponent(c: Bytes)
    requires 92 !in c
    ensures Split(c) == if c == [] then [] else [c]
  {
    ComponentsOfRun(c, [], []);
    assert c + [] == c && [] + c == c;
  }

  lemma {:induction false} ComponentsAtDelimiter(a: Bytes, b: Bytes, cur: Bytes)
    ensures Components(a + [DELIM] + b, cur) == Components(a, cur) + Components(b, [])
    decreases |a|
  {
    var s := a + [DELIM] + b;
    if a == [] {
      assert s[1..] == b;
    } else {
      assert s[1..] == a[1..] + [DELIM] + b;
      if a[0] == DELIM {
        ComponentsAtDelimiter(a[1..], b, []);
      } else {
        ComponentsAtDelimiter(a[1..], b, cur + [a[0]]);
      }
    }
  }

  /** A backslash cuts a path in two independent halves. */
  lemma {:induction false} SplitAtDelimiter(a: Bytes, b: Bytes)
    ensures Split(a + [92] + b) == Split(a) + Split(b)
  {
    ComponentsAtDelimiter(a, b, []);
  }

  /** Leading, trailing and repeated separators do not matter. */
  lemma {:induction false} ExtraSeparatorsAreIgnored(a: Bytes, b: Bytes)
    ensures Split([92] + a) == Split(a) == Split(a + [92])
    ensures Split(a + [92] + [92] + b) == Split(a + [92] + b)
  {
    assert [] + [DELIM] + a == [DELIM] + a && a + [DELIM] + [] == a + [DELIM];
    SplitAtDelimiter([], a);
    SplitAtDelimiter(a, []);
    SplitAtDelimiter(a + [DELIM], b);
    SplitAtDelimiter(a, b);
  }

  function WithoutDelimiters(s: Bytes): Bytes {
    if s == [] then [] else (if s[0] == DELIM then [] else [s[0]]) + WithoutDelimiters(s[1..])
  }

  ghost predicate Name(s: Bytes) {
    s != [] && DELIM !in s
  }

  lemma {:induction false} ComponentsAreNames(s: Bytes, cur: Bytes)
    requires DELIM !in cur
    ensures forall c :: c in Components(s, cur) ==> Name(c)
    decreases |s|
  {
    if s == [] {
    } else if s[0] == DELIM {
      ComponentsAreNames(s[1..], []);
    } else {
      ComponentsAreNames(s[1..], cur + [s[0]]);
    }
  }

  lemma {:induction false} ConcatFlush(cur: Bytes, tail: seq<Bytes>)
    ensures Concat(Flush(cur) + tail) == cur + Concat(tail)
  {
    if cur == [] {
      assert [] + tail == tail && cur + Concat(tail) == Concat(tail);
    } else {
      assert ([cur] + tail)[1..] == tail;
    }
  }

  lemma {:induction false} ComponentsConcat(s: Bytes, cur: Bytes)
    ensures Concat(Components(s, cur)) == cur + WithoutDelimiters(s)
    decreases |s|
  {
    if s == [] {
      ConcatFlush(cur, []);
      assert Flush(cur) + [] == Flush(cur);
    } else if s[0] == DELIM {
      ComponentsConcat(s[1..], []);
      ConcatFlush(cur, Components(s[1..], []));
      assert WithoutDelimiters(s) == [] + WithoutDelimiters(s[1..]);
    } else {
      ComponentsConcat(s[1..], cur + [s[0]]);
      Associative(cur, [s[0]], WithoutDelimiters(s[1..]));
    }
  }

  /** The components are proper names and lose nothing but the separators. */
  lemma {:induction false} SplitKeepsEverythingElse(s: Bytes)
    ensures forall c :: c in Split(s) ==> Name(c)
    ensures Concat(Split(s)) == WithoutDelimiters(s)
  {
    ComponentsAreNames(s, []);
    ComponentsConcat(s, []);
    assert [] + WithoutDelimiters(s) == WithoutDelimiters(s);
  }

  function Join(names: seq<Bytes>): Bytes {
    if names == [] then []
    else if |names| == 1 then names[0]
    else names[0] + [DELIM] + Join(names[1..])
  }

  /** Splitting undoes joining. */
  lemma {:induction false} SplitOfJoin(names: seq<Bytes>)
    requires forall i :: 0 <= i < |names| ==> Name(names[i])
    ensures Split(Join(names)) == names
  {
    if |names| == 1 {
      SplitOfComponent(names[0]);
    } else if |names| > 1 {
      SplitAtDelimiter(names[0], Join(names[1..]));
      SplitOfComponent(names[0]);
      SplitOfJoin(names[1..]);
      assert [names[0]] + names[1..] == names;
    }
  }
}
