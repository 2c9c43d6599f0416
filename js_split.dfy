/** JavaScript's `text.split(/[\n\s]+/)` and `Array.prototype.join`, on strings
    modelled as sequences of characters. */
module JsSplit {

  /** Membership in the regular-expression class `\s`: the ECMAScript
      WhiteSpace and LineTerminator code points. The `\n` written beside `\s`
      in the pattern `[\n\s]` adds nothing, since `\n` is already in `\s`. */
  predicate IsWs(c: char) {
    var n := c as int;
    || n == 0x09 || n == 0x0A || n == 0x0B || n == 0x0C || n == 0x0D
    || n == 0x20 || n == 0xA0 || n == 0x1680 || (0x2000 <= n <= 0x200A)
    || n == 0x2028 || n == 0x2029 || n == 0x202F || n == 0x205F
    || n == 0x3000 || n == 0xFEFF
  }

  predicate NoWs(s: string) {
    forall k :: 0 <= k < |s| ==> !IsWs(s[k])
  }

  predicate AllWs(s: string) {
    forall k :: 0 <= k < |s| ==> IsWs(s[k])
  }

  /** The position of the first whitespace character at or after `from`, or
      `|s|` when there is none: where the next match of the pattern starts. */
  function NextWs(s: string, from: nat): (i: nat)
    requires from <= |s|
    ensures from <= i <= |s|
    ensures forall k :: from <= k < i ==> !IsWs(s[k])
    ensures i < |s| ==> IsWs(s[i])
    decreases |s| - from
  {
    if from == |s| || IsWs(s[from]) then from else NextWs(s, from + 1)
  }

  /** The end of the maximal whitespace run that starts at `from`: the greedy
      `+` of the pattern consumes the whole run. */
  function RunEnd(s: string, from: nat): (j: nat)
    requires from <= |s|
    ensures from <= j <= |s|
    ensures forall k :: from <= k < j ==> IsWs(s[k])
    ensures j < |s| ==> !IsWs(s[j])
    decreases |s| - from
  {
    if from == |s| || !IsWs(s[from]) then from else RunEnd(s, from + 1)
  }

  /** `s.split(/[\n\s]+/)`. Every maximal run of whitespace separates two
      tokens, so a leading or a trailing run yields an empty token and the
      empty string yields `[""]`. */
  function Split(s: string): (r: seq<string>)
    ensures |r| >= 1
    ensures forall k :: 0 <= k < |r| ==> NoWs(r[k])
    ensures forall k :: 0 < k < |r| - 1 ==> r[k] != ""
    ensures s != "" && !IsWs(s[0]) ==> r[0] != ""
    ensures |r| > 1 ==> s != ""
    decreases |s|
  {
    var i := NextWs(s, 0);
    if i == |s| then [s]
    else
      var j := RunEnd(s, i);
      [s[..i]] + Split(s[j..])
  }

  /** `ts.join(sep)`: the tokens with `sep` between neighbours; `[]` gives `""`. */
  function Join(ts: seq<string>, sep: string): (r: string)
    ensures |ts| > 0 ==> |ts[0]| <= |r| && r[..|ts[0]|] == ts[0]
  {
    if |ts| == 0 then ""
    else if |ts| == 1 then ts[0]
    else ts[0] + sep + Join(ts[1..], sep)
  }

  /** All tokens glued together. */
  function Concat(ts: seq<string>): string {
    if ts == [] then "" else ts[0] + Concat(ts[1..])
  }

  /** The characters of `s` that are not whitespace, in order. */
  function DropWs(s: string): (r: string)
    ensures |r| <= |s|
  {
    if s == "" then "" else (if IsWs(s[0]) then "" else [s[0]]) + DropWs(s[1..])
  }

  lemma {:induction false} DropWsAppend(a: string, b: string)
    ensures DropWs(a + b) == DropWs(a) + DropWs(b)
    decreases |a|
  {
    if a == "" {
      assert a + b == b;
    } else {
      assert (a + b)[1..] == a[1..] + b;
      DropWsAppend(a[1..], b);
    }
  }

  lemma {:induction false} DropWsOfNoWs(s: string)
    requires NoWs(s)
    ensures DropWs(s) == s
    decreases |s|
  {
    if s != "" {
      DropWsOfNoWs(s[1..]);
    }
  }

  lemma {:induction false} DropWsOfAllWs(s: string)
    requires AllWs(s)
    ensures DropWs(s) == ""
    decreases |s|
  {
    if s != "" {
      DropWsOfAllWs(s[1..]);
    }
  }

  /** One step of the split: the first token, then the split of what follows
      the first whitespace run. */
  lemma SplitStep(s: string)
    requires NextWs(s, 0) < |s|
    ensures var i := NextWs(s, 0); var j := RunEnd(s, i);
      Split(s) == [s[..i]] + Split(s[j..])
  {
  }

  lemma DropWsStep(head: string, run: string, tail: string)
    requires NoWs(head) && AllWs(run)
    ensures DropWs(head + run + tail) == head + DropWs(tail)
  {
    calc {
      DropWs(head + run + tail);
      { assert head + run + tail == head + (run + tail); }
      DropWs(head + (run + tail));
      { DropWsAppend(head, run + tail); }
      DropWs(head) + DropWs(run + tail);
      { DropWsAppend(run, tail); }
      DropWs(head) + (DropWs(run) + DropWs(tail));
      { DropWsOfNoWs(head); DropWsOfAllWs(run); }
      head + ("" + DropWs(tail));
      { assert "" + DropWs(tail) == DropWs(tail); }
      head + DropWs(tail);
    }
  }

  lemma ConcatCons(t: string, ts: seq<string>)
    ensures Concat([t] + ts) == t + Concat(ts)
  {
    assert ([t] + ts)[1..] == ts;
  }

  /** Splitting loses and invents no character: the tokens glued together are
      exactly the non-whitespace characters of the input. */
  lemma {:induction false} SplitKeepsText(s: string)
    ensures Concat(Split(s)) == DropWs(s)
    decreases |s|
  {
    var i := NextWs(s, 0);
    if i == |s| {
      assert Split(s) == [s];
      DropWsOfNoWs(s);
      ConcatCons(s, []);
    } else {
      var j := RunEnd(s, i);
      SplitStep(s);
      assert s == s[..i] + s[i..j] + s[j..];
      assert NoWs(s[..i]) && AllWs(s[i..j]);
      DropWsStep(s[..i], s[i..j], s[j..]);
      SplitKeepsText(s[j..]);
      ConcatCons(s[..i], Split(s[j..]));
    }
  }

  /** Every token of an all-whitespace input is empty. */
  lemma SplitOfAllWs(s: string)
    requires AllWs(s)
    ensures forall k :: 0 <= k < |Split(s)| ==> Split(s)[k] == ""
  {
    SplitKeepsText(s);
    DropWsOfAllWs(s);
    ConcatEmpty(Split(s));
  }

  lemma {:induction false} ConcatEmpty(ts: seq<string>)
    requires Concat(ts) == ""
    ensures forall k :: 0 <= k < |ts| ==> ts[k] == ""
  {
    if ts != [] {
      ConcatEmpty(ts[1..]);
      forall k | 0 < k < |ts| ensures ts[k] == "" {
        assert ts[k] == ts[1..][k - 1];
      }
    }
  }

  /** Tokens that `Split` can give back: none holds whitespace and only the
      first and the last may be empty. */
  predicate Splittable(ts: seq<string>) {
    && |ts| >= 1
    && (forall k :: 0 <= k < |ts| ==> NoWs(ts[k]))
    && (forall k :: 0 < k < |ts| - 1 ==> ts[k] != "")
  }

  /** Joining splittable tokens with any non-empty whitespace separator and
      splitting the result gives the tokens back. */
  lemma {:induction false} SplitJoin(ts: seq<string>, sep: string)
    requires Splittable(ts)
    requires sep != "" && AllWs(sep)
    ensures Split(Join(ts, sep)) == ts
    decreases |ts|
  {
    var s := Join(ts, sep);
    if |ts| == 1 {
      assert NoWs(s);
    } else {
      var t0, rest := ts[0], Join(ts[1..], sep);
      assert s == t0 + sep + rest;
      assert Splittable(ts[1..]) by {
        forall k | 0 < k < |ts[1..]| - 1 ensures ts[1..][k] != "" {
          assert ts[1..][k] == ts[k + 1];
        }
        forall k | 0 <= k < |ts[1..]| ensures NoWs(ts[1..][k]) {
          assert ts[1..][k] == ts[k + 1];
        }
      }
      assert rest == "" || !IsWs(rest[0]) by {
        if ts[1] == "" {
          assert |ts| == 2;
        } else {
          assert rest[..|ts[1]|] == ts[1];
          assert rest[0] == ts[1][0];
        }
      }
      assert forall k :: |t0| <= k < |t0| + |sep| ==> s[k] == sep[k - |t0|];
      var i := NextWs(s, 0);
      assert s[|t0|] == sep[0];
      assert i == |t0|;
      var j := RunEnd(s, i);
      assert j == |t0| + |sep| by {
        if |t0| + |sep| < |s| {
          assert s[|t0| + |sep|] == rest[0];
        }
      }
      assert s[j..] == rest;
      SplitJoin(ts[1..], sep);
      assert ts == [t0] + ts[1..];
    }
  }
}
