/**
 Eight-plus-three names: how a short name reads, how one is made, and why a plain name reads back.
 Names are sequences of code points.
 */
module FatNames {
  function UpperCode(c: int): int {
    if 97 <= c <= 122 then c - 32 else c
  }

  function LowerCode(c: int): int {
    if 65 <= c <= 90 then c + 32 else c
  }

  function Lowered(s: seq<int>): (t: seq<int>)
    ensures |t| == |s|
  {
    seq(|s|, i requires 0 <= i < |s| => LowerCode(s[i]))
  }

  function Uppered(s: seq<int>): (t: seq<int>)
    ensures |t| == |s|
  {
    seq(|s|, i requires 0 <= i < |s| => UpperCode(s[i]))
  }

  /** Two names that differ only in the case of ASCII letters. */
  predicate SameName(a: seq<int>, b: seq<int>) {
    Lowered(a) == Lowered(b)
  }

  // ---- reading a short name ----

  function TrimEnd(s: seq<int>): (t: seq<int>) {
    if s != [] && s[|s| - 1] == 32 then TrimEnd(s[..|s| - 1]) else s
  }

  /** A stored byte as a character: 5 stands for 0xE5; a case flag lowers it. */
  function Shown(c: int, lower: bool): int {
    var c' := if c == 5 then 229 else c;
    if lower then LowerCode(c') else c'
  }

  function ShownAll(s: seq<int>, lower: bool): (t: seq<int>)
    ensures |t| == |s|
  {
    seq(|s|, i requires 0 <= i < |s| => Shown(s[i], lower))
  }

  function NameText(base: seq<int>, ext: seq<int>): seq<int> {
    base + if ext == [] then [] else [46] + ext
  }

  function ShortNameText(short: seq<int>, caseInfo: int): seq<int>
    requires |short| == 11
  {
    NameText(ShownAll(TrimEnd(short[..8]), caseInfo / 8 % 2 == 1),
        ShownAll(TrimEnd(short[8..]), caseInfo / 16 % 2 == 1))
  }

  lemma {:induction false} LoweredJoin(a: seq<int>, b: seq<int>)
    ensures Lowered(a + b) == Lowered(a) + Lowered(b)
  {
  }

  lemma {:induction false} NameTextLowered(base: seq<int>, ext: seq<int>)
    ensures Lowered(NameText(base, ext)) == NameText(Lowered(base), Lowered(ext))
  {
    if ext == [] {
      assert NameText(base, ext) == base;
    } else {
      LoweredJoin(base, [46] + ext);
      LoweredJoin([46], ext);
    }
  }

  lemma {:induction false} ShownLowered(s: seq<int>, lower: bool)
    ensures Lowered(ShownAll(s, lower)) == Lowered(ShownAll(s, false))
  {
  }

  /** The case flags do not change which name it is. */
  lemma {:induction false} CaseInfoIgnored(short: seq<int>, a: int, b: int)
    requires |short| == 11
    ensures SameName(ShortNameText(short, a), ShortNameText(short, b))
  {
    hide Lowered, ShownAll, TrimEnd, NameText;
    var base, ext := TrimEnd(short[..8]), TrimEnd(short[8..]);
    var p, q, r, t := a / 8 % 2 == 1, a / 16 % 2 == 1, b / 8 % 2 == 1, b / 16 % 2 == 1;
    NameTextLowered(ShownAll(base, p), ShownAll(ext, q));
    NameTextLowered(ShownAll(base, r), ShownAll(ext, t));
    ShownLowered(base, p);
    ShownLowered(base, r);
    ShownLowered(ext, q);
    ShownLowered(ext, t);
  }

  // ---- making one ----

  /** Upper-case letters, digits and the punctuation a short name may hold. */
  predicate Allowed(c: int) {
    65 <= c <= 90 || 97 <= c <= 122 || 48 <= c <= 57
        || c in {33, 35, 36, 37, 38, 39, 40, 41, 45, 64, 94, 95, 96, 123, 125, 126}
  }

  function Clean(s: seq<int>, max: nat): (t: seq<int>)
    ensures |t| <= max && |t| <= |s| && forall i :: 0 <= i < |t| ==> Allowed(t[i])
  {
    if s == [] then []
    else
      var rest := Clean(s[..|s| - 1], max);
      if |rest| < max && Allowed(UpperCode(s[|s| - 1])) then rest + [UpperCode(s[|s| - 1])] else rest
  }

  method CleanInto(s: seq<int>, max: nat) returns (t: seq<int>)
    ensures t == Clean(s, max)
  {
    t := [];
    var i := 0;
    assert s[..0] == [];
    while i < |s|
      invariant i <= |s| && t == Clean(s[..i], max)
    {
      assert s[..i + 1][..i] == s[..i];
      if |t| >= max {
        FullStays(s, i, max);
        return;
      }
      var u := UpperCode(s[i]);
      if Allowed(u) {
        t := t + [u];
      }
      i := i + 1;
    }
    assert s[..|s|] == s;
  }

  lemma {:induction false} FullStays(s: seq<int>, i: nat, max: nat)
    requires i <= |s| && |Clean(s[..i], max)| >= max
    ensures Clean(s, max) == Clean(s[..i], max)
    decreases |s| - i
  {
    if i == |s| {
      assert s[..i] == s;
    } else {
      assert s[..i + 1][..i] == s[..i];
      FullStays(s, i + 1, max);
    }
  }

  function Spaces(n: nat): (s: seq<int>)
    ensures |s| == n && forall i :: 0 <= i < n ==> s[i] == 32
  {
    seq(n, _ => 32)
  }

  function Take(s: seq<int>, n: int): (t: seq<int>)
    requires n >= 0
    ensures |t| == if |s| < n then |s| else n
  {
    if |s| < n then s else s[..n]
  }

  /** Base, tail and extension in their columns, padded with spaces. */
  function Built(base: seq<int>, suffix: seq<int>, ext: seq<int>): (short: seq<int>)
    ensures |short| == 11
  {
    var stem := Take(Take(base, if |suffix| < 8 then 8 - |suffix| else 0) + suffix, 8);
    var tail := Take(ext, 3);
    stem + Spaces(8 - |stem|) + (tail + Spaces(3 - |tail|))
  }

  function Digits(n: nat): seq<int> {
    if n < 10 then [48 + n] else Digits(n / 10) + [48 + n % 10]
  }

  /** The text "~N". */
  function Tail(n: nat): seq<int> {
    [126] + Digits(n)
  }

  /** Where the last dot is, if one follows the first character. */
  function LastDot(s: seq<int>): (i: int)
    ensures -1 <= i < |s| && (i >= 0 ==> s[i] == 46) && forall k :: i < k < |s| ==> s[k] != 46
  {
    if s == [] then -1 else if s[|s| - 1] == 46 then |s| - 1 else LastDot(s[..|s| - 1])
  }

  /** The cleaned stem and extension of a name. */
  function Stem(name: seq<int>): seq<int> {
    Clean(if LastDot(name) > 0 then name[..LastDot(name)] else name, 255)
  }

  function Extension(name: seq<int>): seq<int> {
    Clean(if LastDot(name) > 0 then name[LastDot(name) + 1..] else [], 3)
  }

  function Candidate(name: seq<int>, n: nat): (short: seq<int>)
    ensures |short| == 11
  {
    Numbered(Stem(name), Extension(name), n)
  }

  function Numbered(stem: seq<int>, ext: seq<int>, n: nat): (short: seq<int>)
    ensures |short| == 11
  {
    Built(stem, if n == 0 then [] else Tail(n), ext)
  }

  /** Without a tail only when the stem fits. */
  predicate NeedsTail(name: seq<int>) {
    |Stem(name)| > 8 || Stem(name) == []
  }

  method CleanParts(name: seq<int>) returns (stem: seq<int>, ext: seq<int>)
    ensures stem == Stem(name) && ext == Extension(name)
  {
    hide LastDot;
    var dot := LastDot(name);
    if dot > 0 {
      stem := CleanInto(name[..dot], 255);
      ext := CleanInto(name[dot + 1..], 3);
    } else {
      stem := CleanInto(name, 255);
      ext := [];
    }
  }

  /** The name for when all else is taken: "FILE~999". */
  function Fallback(): (short: seq<int>)
    ensures |short| == 11
  {
    [70, 73, 76, 69, 126, 57, 57, 57, 32, 32, 32]
  }

  /** Candidate `n` can be had: the bare one only if the stem fits, and only what no entry has. */
  predicate Usable(name: seq<int>, taken: set<seq<int>>, n: nat) {
    n <= 9999 && (n == 0 ==> !NeedsTail(name)) && Candidate(name, n) !in taken
  }

  ghost predicate FirstUsable(name: seq<int>, taken: set<seq<int>>, n: nat) {
    Usable(name, taken, n) && forall k: nat {:trigger Usable(name, taken, k)} :: k < n ==> !Usable(name, taken, k)
  }

  /** The first candidate that can be had, in order; one fixed name when there is none. That is taken
      exactly when every candidate and the fixed name are. */
  method MakeShortName(name: seq<int>, taken: set<seq<int>>) returns (short: seq<int>)
    ensures |short| == 11
    ensures if exists n: nat :: Usable(name, taken, n) then exists n: nat ::
              FirstUsable(name, taken, n) && short == Candidate(name, n)
            else short == Fallback()
    ensures short in taken <==>
              && (NeedsTail(name) || Candidate(name, 0) in taken)
              && (forall n :: 1 <= n <= 9999 ==> Candidate(name, n) in taken)
              && Fallback() in taken
  {
    hide Numbered, Stem, Extension, Fallback;
    var stem, ext := CleanParts(name);
    if |stem| <= 8 && stem != [] {
      short := Numbered(stem, ext, 0);
      if short !in taken {
        assert FirstUsable(name, taken, 0);
        return;
      }
    }
    var n := 1;
    while n <= 9999
      invariant 1 <= n <= 10000
      invariant forall k: nat {:trigger Usable(name, taken, k)} :: k < n ==> !Usable(name, taken, k)
    {
      short := Numbered(stem, ext, n);
      if short !in taken {
        assert FirstUsable(name, taken, n);
        return;
      }
      n := n + 1;
    }
    NoneUsable(name, taken);
    short := Fallback();
  }

  lemma NoneUsable(name: seq<int>, taken: set<seq<int>>)
    requires forall k: nat {:trigger Usable(name, taken, k)} :: k < 10000 ==> !Usable(name, taken, k)
    ensures forall n: nat :: !Usable(name, taken, n)
    ensures NeedsTail(name) || Candidate(name, 0) in taken
    ensures forall n :: 1 <= n <= 9999 ==> Candidate(name, n) in taken
  {
    hide Candidate, NeedsTail;
    assert !Usable(name, taken, 0);
    forall n | 1 <= n <= 9999 ensures Candidate(name, n) in taken {
      assert !Usable(name, taken, n);
    }
  }

  /** A directory can be that full: with these 10001 short names in it, the one made for `name` is among
      them, whatever `name` is. */
  function Crowd(name: seq<int>): set<seq<int>> {
    (set n | 0 <= n <= 9999 :: Candidate(name, n)) + {Fallback()}
  }

  lemma CrowdCollides(name: seq<int>)
    ensures Fallback() in Crowd(name) && forall n: nat :: !Usable(name, Crowd(name), n)
    ensures (NeedsTail(name) || Candidate(name, 0) in Crowd(name)) && forall n :: 1 <= n <= 9999 ==>
              Candidate(name, n) in Crowd(name)
  {
    hide Candidate, NeedsTail, Fallback;
  }

  // ---- plain names ----

  predicate AllAllowed(s: seq<int>) {
    forall i :: 0 <= i < |s| ==> Allowed(s[i])
  }

  /** A name that needs no change but upper case: one to eight allowed characters, and perhaps a dot
      and one to three more. */
  predicate Plain(name: seq<int>) {
    var dot := LastDot(name);
    if dot < 0 then 1 <= |name| <= 8 && AllAllowed(name)
    else 1 <= dot <= 8 && AllAllowed(name[..dot]) && 1 <= |name| - dot - 1 <= 3 && AllAllowed(name[dot + 1..])
  }

  lemma {:induction false} CleanAllowed(s: seq<int>, max: nat)
    requires AllAllowed(s) && |s| <= max
    ensures Clean(s, max) == Uppered(s)
  {
    if s != [] {
      CleanAllowed(s[..|s| - 1], max);
      assert Allowed(s[|s| - 1]);
      assert Uppered(s) == Uppered(s[..|s| - 1]) + [UpperCode(s[|s| - 1])];
    }
  }

  lemma {:induction false} TrimPadded(s: seq<int>, n: nat)
    requires s == [] || s[|s| - 1] != 32
    ensures TrimEnd(s + Spaces(n)) == s
  {
    if n == 0 {
      assert s + Spaces(0) == s;
    } else {
      var t := s + Spaces(n);
      assert t[..|t| - 1] == s + Spaces(n - 1);
      TrimPadded(s, n - 1);
    }
  }

  lemma {:induction false} UpperShown(s: seq<int>)
    requires AllAllowed(s)
    ensures Lowered(ShownAll(Uppered(s), false)) == Lowered(s)
    ensures s != [] ==> Uppered(s)[|s| - 1] != 32
  {
    forall i | 0 <= i < |s|
      ensures LowerCode(Shown(UpperCode(s[i]), false)) == LowerCode(s[i]) && UpperCode(s[i]) != 32
    {
      assert Allowed(s[i]);
    }
  }

  /** A plain name's bare candidate reads as that name again, up to case. */
  lemma {:induction false} PlainReadsBack(name: seq<int>, caseInfo: int)
    requires Plain(name)
    ensures !NeedsTail(name) && SameName(ShortNameText(Candidate(name, 0), caseInfo), name)
  {
    hide Lowered, Uppered, Plain, Built, ShortNameText, Stem, Extension, NameText, AllAllowed;
    var base, ext := PlainParts(name);
    BuiltReads(base, ext, caseInfo);
  }

  lemma {:induction false} BuiltReads(base: seq<int>, ext: seq<int>, caseInfo: int)
    requires AllAllowed(base) && AllAllowed(ext) && 1 <= |base| <= 8 && |ext| <= 3
    ensures SameName(ShortNameText(Built(Uppered(base), [], Uppered(ext)), caseInfo), NameText(base, ext))
  {
    hide Lowered, ShownAll, Uppered, TrimEnd, Built, NameText, AllAllowed;
    BareParts(base, ext);
    CaseInfoIgnored(Built(Uppered(base), [], Uppered(ext)), caseInfo, 0);
    NameTextLowered(base, ext);
    NameTextLowered(ShownAll(Uppered(base), false), ShownAll(Uppered(ext), false));
  }

  lemma {:induction false} PlainParts(name: seq<int>) returns (base: seq<int>, ext: seq<int>)
    requires Plain(name)
    ensures AllAllowed(base) && AllAllowed(ext) && 1 <= |base| <= 8 && |ext| <= 3 && name == NameText(base, ext)
    ensures Stem(name) == Uppered(base) && Extension(name) == Uppered(ext)
  {
    hide LastDot, AllAllowed, Clean, Uppered;
    var dot := LastDot(name);
    if dot < 0 {
      base, ext := name, [];
      AllowedNone();
      assert NameText(base, ext) == name;
    } else {
      base, ext := name[..dot], name[dot + 1..];
      assert name == base + ([46] + ext);
    }
    CleanAllowed(base, 255);
    CleanAllowed(ext, 3);
  }

  lemma {:induction false} AllowedNone()
    ensures AllAllowed([])
  {
  }

  lemma {:induction false} BareParts(base: seq<int>, ext: seq<int>)
    requires AllAllowed(base) && AllAllowed(ext) && 1 <= |base| <= 8 && |ext| <= 3
    ensures var short := Built(Uppered(base), [], Uppered(ext));
      TrimEnd(short[..8]) == Uppered(base) && TrimEnd(short[8..]) == Uppered(ext)
    ensures Lowered(ShownAll(Uppered(base), false)) == Lowered(base)
    ensures Lowered(ShownAll(Uppered(ext), false)) == Lowered(ext)
  {
    UpperShown(base);
    UpperShown(ext);
    TrimPadded(Uppered(base), 8 - |base|);
    TrimPadded(Uppered(ext), 3 - |ext|);
    hide Lowered, ShownAll, Uppered, TrimEnd;
    var short := Built(Uppered(base), [], Uppered(ext));
    assert Take(Uppered(base), 8) + [] == Uppered(base);
    assert short[..8] == Uppered(base) + Spaces(8 - |base|);
    assert short[8..] == Uppered(ext) + Spaces(3 - |ext|);
  }

  /** A short name begins with none of the bytes that mean something else, and is made of bytes. */
  lemma {:induction false} PlainFirst(name: seq<int>)
    requires Plain(name)
    ensures var c := Candidate(name, 0)[0]; Allowed(c) && c != 0 && c != 229 && c != 46
    ensures forall i :: 0 <= i < 11 ==> 0 <= Candidate(name, 0)[i] < 256
  {
    hide Plain, Stem, Extension, Built;
    var base, ext := PlainParts(name);
    BuiltBytes(base, ext);
  }

  lemma {:induction false} BuiltBytes(base: seq<int>, ext: seq<int>)
    requires AllAllowed(base) && AllAllowed(ext) && 1 <= |base| <= 8 && |ext| <= 3
    ensures var short := Built(Uppered(base), [], Uppered(ext));
      Allowed(short[0]) && short[0] != 0 && short[0] != 229 && short[0] != 46 && forall i :: 0 <= i < 11 ==>
          0 <= short[i] < 256
  {
    var b, e := Uppered(base), Uppered(ext);
    assert forall i :: 0 <= i < |b| ==> Allowed(base[i]) && 0 <= b[i] < 256;
    assert forall i :: 0 <= i < |e| ==> Allowed(ext[i]) && 0 <= e[i] < 256;
    hide Uppered, AllAllowed;
    assert Take(b, 8) + [] == b;
    assert Allowed(base[0]) && Allowed(b[0]);
  }
}
