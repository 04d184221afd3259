/** The pieces of a `printf` format: unsigned decimals, truncated strings and colon-separated fields. */
module TextFormat {
  import opened Basics

  /** What `%.Ns` prints. */
  function Prefix(s: string, n: nat): (r: string)
    ensures r <= s && |r| == if |s| <= n then |s| else n
  {
    if |s| <= n then s else s[..n]
  }

  /** What `snprintf` leaves in a buffer of `size` bytes. */
  function Snprintf(size: nat, s: string): string
    requires size > 0
  {
    Prefix(s, size - 1)
  }

  function Repeated(ch: char, n: nat): (s: string)
    ensures |s| == n && forall i :: 0 <= i < n ==> s[i] == ch
  {
    seq(n, _ => ch)
  }

  predicate ColonFree(s: string) {
    ':' !in s
  }

  // ---------------------------------------------------------------- decimals

  function DecDigit(d: int): char
    requires 0 <= d < 10
  {
    ('0' as int + d) as char
  }

  predicate IsDigit(c: char) {
    '0' <= c <= '9'
  }

  /** What `%u` prints. */
  function Dec(n: nat): (s: string)
    ensures |s| > 0 && forall c :: c in s ==> IsDigit(c)
  {
    if n < 10 then [DecDigit(n)] else Dec(n / 10) + [DecDigit(n % 10)]
  }

  /** The number that a non-empty string of digits denotes. */
  function ParseDec(s: string): Option<nat> {
    if |s| == 0 || !IsDigit(s[|s| - 1]) then None
    else
      var d := s[|s| - 1] as int - '0' as int;
      if |s| == 1 then Some(d)
      else
        match ParseDec(s[..|s| - 1])
        case None => None
        case Some(n) => Some(10 * n + d)
  }

  lemma {:induction false} ParseDecDec(n: nat)
    ensures ParseDec(Dec(n)) == Some(n)
  {
    if n >= 10 {
      ParseDecDec(n / 10);
      assert Dec(n)[..|Dec(n)| - 1] == Dec(n / 10);
    }
  }

  lemma DecInjective(m: nat, n: nat)
    requires Dec(m) == Dec(n)
    ensures m == n
  {
    ParseDecDec(m);
    ParseDecDec(n);
  }

  function Pow10(k: nat): (p: nat)
    ensures p > 0
  {
    if k == 0 then 1 else 10 * Pow10(k - 1)
  }

  /** A number below 10^k prints in at most k digits. */
  lemma {:induction false} DecLength(n: nat, k: nat)
    requires 1 <= k && n < Pow10(k)
    ensures |Dec(n)| <= k
  {
    if n >= 10 {
      assert Pow10(1) == 10;
      assert n / 10 < Pow10(k - 1);
      DecLength(n / 10, k - 1);
    }
  }

  /** `%u` prints a 32-bit value in at most ten digits, none of them a colon. */
  lemma DecWord(n: uint32)
    ensures |Dec(n)| <= 10 && ColonFree(Dec(n))
  {
    assert Pow10(5) == 100_000;
    assert Pow10(10) == 10_000_000_000;
    DecLength(n, 10);
  }

  // ---------------------------------------------------------------- fields

  /** The fields separated by single colons. */
  function Join(fields: seq<string>): string
    requires |fields| > 0
  {
    if |fields| == 1 then fields[0] else fields[0] + ":" + Join(fields[1..])
  }

  /** The position of the first colon, or the length. */
  function FirstColon(s: string): (i: nat)
    ensures i <= |s| && ColonFree(s[..i])
    ensures i < |s| ==> s[i] == ':'
  {
    if s == [] || s[0] == ':' then 0 else 1 + FirstColon(s[1..])
  }

  /** Cuts `s` at its first n - 1 colons; the last field keeps whatever colons remain. */
  function Split(s: string, n: nat): (r: Option<seq<string>>)
    requires n > 0
    ensures r.Some? ==> |r.value| == n
  {
    if n == 1 then Some([s])
    else
      var i := FirstColon(s);
      if i == |s| then None
      else
        match Split(s[i + 1..], n - 1)
        case None => None
        case Some(rest) => Some([s[..i]] + rest)
  }

  lemma FirstColonUnique(s: string, i: nat)
    requires i < |s| && s[i] == ':' && ColonFree(s[..i])
    ensures FirstColon(s) == i
  {
  }

  /** Splitting a colon-free field off the front. */
  lemma SplitStep(head: string, rest: string, n: nat)
    requires n > 1 && ColonFree(head)
    ensures var r := Split(rest, n - 1);
            Split(head + ":" + rest, n) == if r.Some? then Some([head] + r.value) else None
  {
    var s := head + ":" + rest;
    assert s[..|head|] == head && s[|head|] == ':' && s[|head| + 1..] == rest;
    FirstColonUnique(s, |head|);
  }

  /** No field but the last holds a colon. */
  predicate LeadColonFree(fields: seq<string>) {
    forall i :: 0 <= i < |fields| - 1 ==> ColonFree(fields[i])
  }

  /** Every field that splitting cuts off is free of colons. */
  lemma {:induction false} SplitColonFree(s: string, n: nat)
    requires n > 0 && Split(s, n).Some?
    ensures forall i :: 0 <= i < n - 1 ==> ColonFree(Split(s, n).value[i])
  {
    if n > 1 {
      SplitColonFree(s[FirstColon(s) + 1..], n - 1);
    }
  }

  lemma JoinFront(front: seq<string>, rest: string)
    requires |front| > 1
    ensures Join(front) + ":" + rest == front[0] + ":" + (Join(front[1..]) + ":" + rest)
  {
  }

  /** Fields free of colons can be cut off the front of any text. */
  lemma {:induction false} SplitFront(front: seq<string>, rest: string)
    requires |front| > 0 && forall i :: 0 <= i < |front| ==> ColonFree(front[i])
    ensures Split(Join(front) + ":" + rest, |front| + 1) == Some(front + [rest])
  {
    var head, tail := front[0], front[1..];
    if tail == [] {
      assert front == [head];
      SplitStep(head, rest, 2);
    } else {
      assert front + [rest] == [head] + (tail + [rest]);
      assert forall i :: 0 <= i < |tail| ==> tail[i] == front[i + 1];
      SplitFront(tail, rest);
      JoinFront(front, rest);
      SplitStep(head, Join(tail) + ":" + rest, |front| + 1);
    }
  }

  /** The leading fields of a longer list can be read without knowing how many follow. */
  lemma SplitLeading(fields: seq<string>, k: nat)
    requires 0 < k < |fields|
    requires forall i :: 0 <= i < k ==> ColonFree(fields[i])
    ensures Split(Join(fields), k + 1) == Some(fields[..k] + [Join(fields[k..])])
  {
    assert fields[..k] + fields[k..] == fields;
    JoinAppend(fields[..k], fields[k..]);
    SplitFront(fields[..k], Join(fields[k..]));
  }

  /** Splitting inverts joining exactly when no field but the last holds a colon. */
  lemma {:induction false} SplitJoin(fields: seq<string>)
    requires |fields| > 0
    ensures Split(Join(fields), |fields|) == Some(fields) <==> LeadColonFree(fields)
  {
    var k := |fields| - 1;
    if k == 0 {
      assert fields == [fields[0]];
    } else if LeadColonFree(fields) {
      SplitLeading(fields, k);
      assert fields[..k] + [fields[k]] == fields && fields[k..] == [fields[k]];
    } else if Split(Join(fields), |fields|) == Some(fields) {
      SplitColonFree(Join(fields), |fields|);
      assert false;
    }
  }

  /** Two field lists of one length that are free of colons before the last field join alike only when equal. */
  lemma JoinInjective(a: seq<string>, b: seq<string>)
    requires |a| == |b| > 0 && Join(a) == Join(b)
    requires LeadColonFree(a) && LeadColonFree(b)
    ensures a == b
  {
    SplitJoin(a);
    SplitJoin(b);
  }

  // ---------------------------------------------------------------- shape and length of joined text

  function Sum(widths: seq<nat>): nat {
    if widths == [] then 0 else widths[0] + Sum(widths[1..])
  }

  lemma {:induction false} JoinBound(fields: seq<string>, widths: seq<nat>)
    requires |fields| == |widths| > 0
    requires forall i :: 0 <= i < |fields| ==> |fields[i]| <= widths[i]
    ensures |Join(fields)| <= Sum(widths) + |fields| - 1
  {
    if |fields| > 1 {
      JoinBound(fields[1..], widths[1..]);
    }
  }

  lemma {:induction false} JoinAppend(front: seq<string>, back: seq<string>)
    requires |front| > 0 && |back| > 0
    ensures Join(front + back) == Join(front) + ":" + Join(back)
  {
    if |front| == 1 {
      assert (front + back)[1..] == back;
    } else {
      JoinAppend(front[1..], back);
      assert (front + back)[1..] == front[1..] + back;
    }
  }

  lemma JoinPair(x: string, y: string)
    ensures Join([x, y]) == x + ":" + y
  {
  }
}
