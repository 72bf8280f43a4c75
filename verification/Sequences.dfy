/** Rearranging concatenations and slices of sequences of anything. */
module Sequences {

  lemma Regroup<T>(a: seq<T>, b: seq<T>, c: seq<T>)
    ensures a + b + c == a + (b + c)
  {
  }

  lemma RegroupAll<T>(a: seq<T>, b: seq<T>, c: seq<T>, d: seq<T>)
    ensures a + b + c == a + (b + c) && b + (c + d) == b + c + d
  {
  }

  lemma SplitAppended<T>(a: seq<T>, b: seq<T>, n: nat)
    requires n <= |a|
    ensures (a + b)[..n] == a[..n] && (a + b)[n..] == a[n..] + b
  {
  }

  lemma IndexAppended<T>(a: seq<T>, b: seq<T>, i: nat)
    requires i < |a|
    ensures (a + b)[i] == a[i]
  {
  }

  lemma DropPrefix<T>(a: seq<T>, b: seq<T>)
    ensures (a + b)[|a|..] == b
  {
  }

  lemma SameTail<T>(head: seq<T>, a: seq<T>, b: seq<T>)
    ensures head + a == head + b <==> a == b
  {
    DropPrefix(head, a);
    DropPrefix(head, b);
  }

  lemma NestedDrop<T>(s: seq<T>, a: nat, b: nat)
    requires a + b <= |s|
    ensures s[a..][b..] == s[a + b..]
  {
  }

  lemma ConsDrop<T>(s: seq<T>)
    requires s != []
    ensures s == [s[0]] + s[1..]
  {
  }

  lemma ConsAppend<T>(s: seq<T>, rest: seq<T>)
    requires s != []
    ensures s + rest == [s[0]] + (s[1..] + rest)
  {
  }

  lemma FirstOff<T>(s: seq<T>, end: nat, next: nat)
    requires 1 <= end <= next <= |s|
    ensures s[..end] == [s[0]] + s[1..][..end - 1] && s[1..][next - 1..] == s[next..]
  {
  }

  lemma Reassembled<T>(text: seq<T>, head: seq<T>, a: seq<T>, b: seq<T>)
    requires head <= text && a <= text[|head|..] && b <= text[|head|..][|a|..]
    ensures var n := |head + a + b|;
            n <= |text| && text == head + a + b + text[n..] && text[n..] == text[|head|..][|a|..][|b|..]
  {
    var body := text[|head|..];
    assert text == head + body;
    assert body == a + body[|a|..];
    assert body[|a|..] == b + body[|a|..][|b|..];
  }

  lemma MultisetSnoc<T>(s: seq<T>, x: T)
    ensures multiset(s + [x]) == multiset(s) + multiset{x}
  {
  }
}
