/** The word-frequency exercise: `WordCount(s)` splits `s` into
    whitespace-separated fields, as Go's `strings.Fields` does, and counts
    how often each distinct field occurs. */
module WordCount {

  /** Go's `unicode.IsSpace`: the Latin-1 spaces `\t \n \v \f \r`, space,
      U+0085 and U+00A0, and beyond Latin-1 the Unicode White_Space set. */
  predicate IsSpace(c: char)
  {
    || '\t' <= c <= '\r'
    || c == ' '
    || c == '\U{85}'
    || c == '\U{A0}'
    || c == '\U{1680}'
    || '\U{2000}' <= c <= '\U{200A}'
    || c == '\U{2028}'
    || c == '\U{2029}'
    || c == '\U{202F}'
    || c == '\U{205F}'
    || c == '\U{3000}'
  }

  /** A field: a non-empty run of non-space characters. */
  predicate IsWord(w: string)
  {
    |w| > 0 && forall k :: 0 <= k < |w| ==> !IsSpace(w[k])
  }

  /** The length of the run of non-space characters that starts `s`. */
  function WordEnd(s: string): (n: nat)
    ensures n <= |s|
    ensures forall k :: 0 <= k < n ==> !IsSpace(s[k])
    ensures n < |s| ==> IsSpace(s[n])
  {
    if s == [] || IsSpace(s[0]) then 0 else 1 + WordEnd(s[1..])
  }

  /** Go's `strings.Fields`: the maximal runs of non-space characters of
      `s`, in order; leading, trailing and repeated spaces yield nothing. */
  function Fields(s: string): (ws: seq<string>)
    ensures forall k :: 0 <= k < |ws| ==> IsWord(ws[k])
    decreases |s|
  {
    if s == [] then []
    else if IsSpace(s[0]) then Fields(s[1..])
    else
      var n := WordEnd(s);
      [s[..n]] + Fields(s[n..])
  }

  /** Go's `strings.Join(ws, " ")`. */
  function JoinSpace(ws: seq<string>): (s: string)
  {
    if ws == [] then []
    else if |ws| == 1 then ws[0]
    else ws[0] + " " + JoinSpace(ws[1..])
  }

  /** The characters of `s` that are not spaces, in order. */
  function NonSpace(s: string): (t: string)
  {
    if s == [] then []
    else if IsSpace(s[0]) then NonSpace(s[1..])
    else [s[0]] + NonSpace(s[1..])
  }

  /** The fields of `ws` put end to end. */
  function Concat(ws: seq<string>): (s: string)
  {
    if ws == [] then [] else ws[0] + Concat(ws[1..])
  }

  lemma {:induction false} WordEndOfWord(w: string, rest: string)
    requires IsWord(w)
    requires rest == [] || IsSpace(rest[0])
    ensures WordEnd(w + rest) == |w|
  {
    if |w| > 1 {
      assert (w + rest)[1..] == w[1..] + rest;
      WordEndOfWord(w[1..], rest);
    } else {
      assert (w + rest)[1..] == rest;
    }
  }

  /** A word followed by a space, or by nothing, is split off as one field. */
  lemma FieldsAfterWord(w: string, rest: string)
    requires IsWord(w)
    requires rest == [] || IsSpace(rest[0])
    ensures Fields(w + rest) == [w] + Fields(rest)
  {
    WordEndOfWord(w, rest);
    var s := w + rest;
    assert s[..|w|] == w;
    assert s[|w|..] == rest;
  }

  /** Splitting a space-joined list of fields gives the fields back. */
  lemma {:induction false} FieldsOfJoin(ws: seq<string>)
    requires forall k :: 0 <= k < |ws| ==> IsWord(ws[k])
    ensures Fields(JoinSpace(ws)) == ws
    decreases |ws|
  {
    if ws == [] {
    } else if |ws| == 1 {
      FieldsAfterWord(ws[0], []);
      assert ws[0] + [] == ws[0];
    } else {
      var rest := " " + JoinSpace(ws[1..]);
      assert JoinSpace(ws) == ws[0] + rest;
      FieldsAfterWord(ws[0], rest);
      assert rest[1..] == JoinSpace(ws[1..]);
      FieldsOfJoin(ws[1..]);
      assert ws == [ws[0]] + ws[1..];
    }
  }

  lemma {:induction false} NonSpaceAppend(a: string, b: string)
    ensures NonSpace(a + b) == NonSpace(a) + NonSpace(b)
    decreases |a|
  {
    if a == [] {
      assert a + b == b;
    } else {
      assert (a + b)[1..] == a[1..] + b;
      NonSpaceAppend(a[1..], b);
    }
  }

  lemma {:induction false} NonSpaceOfWordPrefix(s: string, n: nat)
    requires n <= |s|
    requires forall k :: 0 <= k < n ==> !IsSpace(s[k])
    ensures NonSpace(s[..n]) == s[..n]
    decreases n
  {
    if n > 0 {
      assert s[..n][1..] == s[1..][..n - 1];
      NonSpaceOfWordPrefix(s[1..], n - 1);
    }
  }

  /** No character is lost or added: the fields, put end to end, are the
      non-space characters of `s`. */
  lemma {:induction false} FieldsKeepNonSpace(s: string)
    ensures Concat(Fields(s)) == NonSpace(s)
    decreases |s|
  {
    if s == [] {
    } else if IsSpace(s[0]) {
      FieldsKeepNonSpace(s[1..]);
    } else {
      var n := WordEnd(s);
      FieldsKeepNonSpace(s[n..]);
      var ws := [s[..n]] + Fields(s[n..]);
      assert ws[1..] == Fields(s[n..]);
      assert s == s[..n] + s[n..];
      NonSpaceAppend(s[..n], s[n..]);
      NonSpaceOfWordPrefix(s, n);
    }
  }

  /** The reference count: each distinct field of `ws` mapped to the number
      of times it occurs in `ws`. */
  function Tally(ws: seq<string>): (m: map<string, int>)
  {
    map w | w in ws :: multiset(ws)[w]
  }

  /** Counting one more field: a field seen for the first time is entered
      with count 1, a field already present has its count incremented. */
  lemma TallyStep(ws: seq<string>, w: string)
    ensures Tally(ws + [w]) == Tally(ws)[w := if w in Tally(ws) then Tally(ws)[w] + 1 else 1]
  {
  }

  /** Go's `WordCount`: one pass over the fields of `s`, updating `ans` in
      place. The result holds exactly the distinct fields of `s` as keys,
      each with its number of occurrences, never less than 1. */
  method WordCount(s: string) returns (ans: map<string, int>)
    ensures ans == Tally(Fields(s))
    ensures ans.Keys == set w | w in Fields(s)
    ensures forall w :: w in ans ==> 1 <= ans[w] == multiset(Fields(s))[w]
  {
    var ws := Fields(s);
    ans := map[];
    for i := 0 to |ws|
      invariant ans == Tally(ws[..i])
    {
      var word := ws[i];
      TallyStep(ws[..i], word);
      assert ws[..i + 1] == ws[..i] + [word];
      if word in ans {
        ans := ans[word := ans[word] + 1];
      } else {
        ans := ans[word := 1];
      }
    }
    assert ws[..|ws|] == ws;
  }

  /** An arbitrary key of a non-empty map. */
  ghost function PickKey<K>(m: map<K, int>): K
    requires m != map[]
  {
    var k :| k in m; k
  }

  /** The sum of all values of `m`. */
  ghost function SumValues<K>(m: map<K, int>): int
    decreases |m|
  {
    if m == map[] then 0
    else
      var k := PickKey(m);
      assert |m - {k}| < |m| by {
        assert (m - {k}).Keys == m.Keys - {k};
      }
      m[k] + SumValues(m - {k})
  }

  lemma {:induction false} SumValuesRemove<K>(m: map<K, int>, k: K)
    requires k in m
    ensures SumValues(m) == m[k] + SumValues(m - {k})
    decreases |m|
  {
    var j := PickKey(m);
    if j != k {
      assert (m - {k}).Keys == m.Keys - {k};
      assert (m - {j}).Keys == m.Keys - {j};
      SumValuesRemove(m - {j}, k);
      SumValuesRemove(m - {k}, j);
      assert m - {j} - {k} == m - {k} - {j};
    }
  }

  lemma SumValuesUpdate<K>(m: map<K, int>, k: K, v: int)
    ensures SumValues(m[k := v]) == SumValues(m) - (if k in m then m[k] else 0) + v
  {
    SumValuesRemove(m[k := v], k);
    if k in m {
      SumValuesRemove(m, k);
      assert m[k := v] - {k} == m - {k};
    } else {
      assert m[k := v] - {k} == m;
    }
  }

  /** The counts of `WordCount` add up to the number of fields. */
  lemma {:induction false} TallySum(ws: seq<string>)
    ensures SumValues(Tally(ws)) == |ws|
    decreases |ws|
  {
    if ws == [] {
      assert Tally(ws) == map[];
    } else {
      var init := ws[..|ws| - 1];
      var w := ws[|ws| - 1];
      assert ws == init + [w];
      TallySum(init);
      TallyStep(init, w);
      SumValuesUpdate(Tally(init), w, if w in Tally(init) then Tally(init)[w] + 1 else 1);
    }
  }
}
