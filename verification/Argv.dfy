/**
 Passing a command line in userprog/process.c: the words are counted in a scratch page, and
 copied backwards from it to the top of the new process's stack, below which their
 addresses go.
 */
module Argv {
  import opened Base

  const NUL := 0
  const SPACE := 32
  const HEADER := 8
  const WORD_BYTES := 4

  /** The space-separated words of a command line. */
  function Words(s: seq<Byte>): (w: seq<seq<Byte>>)
    ensures s != [] && s[0] != SPACE ==> w != []
    ensures |w| <= |s|
  {
    if s == [] then []
    else if s[0] == SPACE then Words(s[1..])
    else
      var rest := Words(s[1..]);
      if |s| == 1 || s[1] == SPACE then [[s[0]]] + rest else [[s[0]] + rest[0]] + rest[1..]
  }

  ghost predicate Solid(s: seq<Byte>) {
    s != [] && SPACE !in s
  }

  /** A stretch without spaces is one word, */
  lemma {:induction false} OneWord(s: seq<Byte>)
    requires Solid(s)
    ensures Words(s) == [s]
  {
    if |s| == 1 {
      assert s[0] in s && s == [s[0]];
      assert Words(s[1..]) == [];
    } else {
      assert s[1] in s;
      OneWord(s[1..]);
      assert s == [s[0]] + s[1..];
    }
  }

  /** Words from the front: a space is passed over, a byte before a space is a word of its
      own, and any other byte belongs to the word behind it. */
  lemma WordsFront(c: Byte, t: seq<Byte>)
    ensures c == SPACE ==> Words([c] + t) == Words(t)
    ensures c != SPACE && (t == [] || t[0] == SPACE) ==> Words([c] + t) == [[c]] + Words(t)
    ensures c != SPACE && t != [] && t[0] != SPACE ==> Words([c] + t) == [[c] + Words(t)[0]] + Words(t)[1..]
  {
    assert ([c] + t)[1..] == t;
  }

  /** and a space separates the words before it from those after it. */
  lemma {:induction false} SpaceSeparates(s: seq<Byte>, t: seq<Byte>)
    ensures Words(s + [SPACE] + t) == Words(s) + Words(t)
  {
    if s == [] {
      assert s + [SPACE] + t == [SPACE] + t;
      WordsFront(SPACE, t);
    } else {
      var c, rest := s[0], s[1..];
      var u := rest + [SPACE] + t;
      assert s == [c] + rest && s + [SPACE] + t == [c] + u;
      SpaceSeparates(rest, t);
      FrontJoins(c, rest, u, Words(t));
    }
  }

  lemma Reassociate<T>(x: T, a: seq<T>, b: seq<T>)
    ensures [x] + (a + b) == [x] + a + b
    ensures a != [] ==> (a + b)[0] == a[0] && (a + b)[1..] == a[1..] + b
  {
  }

  lemma FrontJoins(c: Byte, s: seq<Byte>, u: seq<Byte>, w: seq<seq<Byte>>)
    requires u != [] && Words(u) == Words(s) + w && (u[0] == SPACE <==> s == [] || s[0] == SPACE)
    ensures Words([c] + u) == Words([c] + s) + w
  {
    WordsFront(c, s);
    WordsFront(c, u);
    if c == SPACE {
    } else if s == [] || s[0] == SPACE {
      Reassociate([c], Words(s), w);
    } else {
      var first := [c] + Words(s)[0];
      Reassociate(first, Words(s), w);
      Reassociate(first, Words(s)[1..], w);
      assert Words([c] + u) == [first] + (Words(s)[1..] + w);
    }
  }

  lemma {:induction false} WordsSolid(s: seq<Byte>)
    ensures forall k :: 0 <= k < |Words(s)| ==> Solid(Words(s)[k])
  {
    if s == [] {
    } else {
      WordsSolid(s[1..]);
    }
  }

  /** The words, each with its terminator, one after the other. */
  function Strings(w: seq<seq<Byte>>): seq<Byte> {
    if w == [] then [] else w[0] + [NUL] + Strings(w[1..])
  }

  // ---------- the scratch page ----------

  /** What `process_execute` makes of the command line: spaces become terminators. */
  function Split(s: seq<Byte>): seq<Byte> {
    seq(|s|, i requires 0 <= i < |s| => if s[i] == SPACE then NUL else s[i])
  }

  /** The copying and counting part of `process_execute`.  The first two words of the page
      are to hold where the text ends and the number of arguments. */
  method CopyArguments(arguments: seq<Byte>, page: array<Byte>) returns (farByte: nat, numArgs: nat)
    requires 0 < |arguments| < page.Length - HEADER && NUL !in arguments
    modifies page
    ensures farByte == HEADER + |arguments| && numArgs == |Words(arguments)|
    ensures page[HEADER..farByte + 1] == Split(arguments) + [NUL]
  {
    var n := |arguments|;
    forall i | 0 <= i < n { page[HEADER + i] := arguments[i]; }
    page[HEADER + n] := NUL;
    numArgs := 0;
    var i, inDelim := 0, true;
    while page[HEADER + i] != NUL
      invariant 0 <= i <= n && page[HEADER + n] == NUL
      invariant forall k :: 0 <= k < n ==>
                  page[HEADER + k] == if k < i && arguments[k] == SPACE then NUL else arguments[k]
      invariant inDelim == (i == 0 || arguments[i - 1] == SPACE)
      invariant numArgs + |Words(arguments[i..])|
             == |Words(arguments)| + if !inDelim && i < n && arguments[i] != SPACE then 1 else 0
      decreases n - i
    {
      assert i < n && arguments[i..][1..] == arguments[i + 1..];
      if page[HEADER + i] == SPACE {
        page[HEADER + i] := NUL;
        inDelim := true;
      } else if inDelim {
        inDelim := false;
        numArgs := numArgs + 1;
      }
      i := i + 1;
    }
    farByte := HEADER + i;
  }

  // ---------- the stack ----------

  /** A pointer or an int in memory. */
  function Word(v: nat): (b: seq<Byte>)
    ensures |b| == WORD_BYTES
  {
    Little(v, WORD_BYTES)
  }

  /** The words, one after the other, as they lie in memory. */
  function WordsOf(v: seq<nat>): (b: seq<Byte>)
    ensures |b| == 4 * |v|
  {
    if v == [] then [] else Word(v[0]) + WordsOf(v[1..])
  }

  method PushByte(stack: array<Byte>, esp: nat, b: Byte) returns (sp: nat)
    requires 0 < esp <= stack.Length
    modifies stack
    ensures sp == esp - 1 && stack[sp..] == [b] + old(stack[esp..])
  {
    sp := esp - 1;
    stack[sp] := b;
  }

  method PushWord(stack: array<Byte>, esp: nat, v: nat) returns (sp: nat)
    requires WORD_BYTES <= esp <= stack.Length
    modifies stack
    ensures sp == esp - WORD_BYTES && stack[sp..] == Word(v) + old(stack[esp..])
  {
    sp := esp - WORD_BYTES;
    var b := Word(v);
    stack[sp], stack[sp + 1], stack[sp + 2], stack[sp + 3] := b[0], b[1], b[2], b[3];
    assert stack[sp + WORD_BYTES..] == old(stack[esp..]);
    assert stack[sp..sp + WORD_BYTES] == b;
    assert stack[sp..] == stack[sp..sp + WORD_BYTES] + stack[sp + WORD_BYTES..];
  }

  /** Going one byte back in the command line: a space changes nothing, the last byte of a
      word puts it and its terminator in front, any other byte extends the first word. */
  lemma OneBack(t: seq<Byte>, c: Byte)
    ensures c == SPACE ==> Words([c] + t) == Words(t)
    ensures c != SPACE && (t == [] || t[0] == SPACE) ==>
              Words([c] + t) == [[c]] + Words(t) && Strings(Words([c] + t)) == [c] + [NUL] + Strings(Words(t))
    ensures c != SPACE && t != [] && t[0] != SPACE ==>
              && Words([c] + t) == [[c] + Words(t)[0]] + Words(t)[1..]
              && Strings(Words([c] + t)) == [c] + Strings(Words(t))
  {
    WordsFront(c, t);
    var w := Words(t);
    if c != SPACE && t != [] && t[0] != SPACE {
      assert ([c] + w[0]) + [NUL] + Strings(w[1..]) == [c] + (w[0] + [NUL] + Strings(w[1..]));
    } else if c != SPACE {
      assert ([[c]] + w)[1..] == w;
    }
  }

  /** The copying of the strings in `start_process` has come to the words `w`: they lie at the
      top of the stack, and the addresses of all but the first are recorded. */
  ghost predicate Copied(stack: array<Byte>, args: array<nat>, w: seq<seq<Byte>>, esp: nat, curArg: int)
    reads stack, args
  {
    && esp <= stack.Length && stack[esp..] == Strings(w) && curArg == args.Length - |w| && curArg >= 0
    && forall j {:trigger args[j]} :: curArg < j < args.Length ==> args[j] == stack.Length - |Strings(w[j - curArg..])|
  }

  /** A byte that starts a new word, going backwards. */
  method CopyLast(stack: array<Byte>, args: array<nat>, esp: nat, curArg: int, c: Byte, ghost w: seq<seq<Byte>>)
    returns (sp: nat, cur: int)
    requires Copied(stack, args, w, esp, curArg) && curArg > 0 && esp >= 2
    modifies stack, args
    ensures Copied(stack, args, [[c]] + w, sp, cur)
  {
    cur := curArg;
    if cur < args.Length { args[cur] := esp; }
    cur := cur - 1;
    ghost var w' := [[c]] + w;
    assert w'[1..] == w;
    forall j | cur < j < args.Length ensures args[j] == stack.Length - |Strings(w'[j - cur..])| {
      assert w'[j - cur..] == w[j - curArg..];
    }
    sp := PushByte(stack, esp, NUL);
    sp := PushByte(stack, sp, c);
    assert [c] + ([NUL] + Strings(w)) == Strings(w');
  }

  /** A byte in front of the first word. */
  method CopyMore(stack: array<Byte>, args: array<nat>, esp: nat, curArg: int, c: Byte, ghost w: seq<seq<Byte>>)
    returns (sp: nat)
    requires Copied(stack, args, w, esp, curArg) && w != [] && esp >= 1
    modifies stack
    ensures Copied(stack, args, [[c] + w[0]] + w[1..], sp, curArg)
  {
    ghost var w' := [[c] + w[0]] + w[1..];
    sp := PushByte(stack, esp, c);
    assert ([c] + w[0]) + [NUL] + Strings(w[1..]) == [c] + (w[0] + [NUL] + Strings(w[1..]));
    forall j | curArg < j < args.Length ensures args[j] == stack.Length - |Strings(w'[j - curArg..])| {
      assert w'[j - curArg..] == w[j - curArg..];
    }
  }

  lemma {:induction false} StringsSuffix(w: seq<seq<Byte>>, k: nat)
    requires k <= |w|
    ensures |Strings(w[k..])| <= |Strings(w)|
  {
    if k > 0 { StringsSuffix(w[1..], k - 1); assert w[1..][k - 1..] == w[k..]; } else { assert w[0..] == w; }
  }

  /** The strings of a shorter command line take no more room. */
  lemma {:induction false} RoomFor(s: seq<Byte>, k: nat)
    requires k <= |s|
    ensures |Strings(Words(s[k..]))| <= |Strings(Words(s))| && |Words(s[k..])| <= |Words(s)|
  {
    if k > 0 {
      RoomFor(s[1..], k - 1);
      assert s[1..][k - 1..] == s[k..];
      OneBack(s[1..], s[0]);
      assert s == [s[0]] + s[1..];
    } else {
      assert s[0..] == s;
    }
  }

  /** The strings take at most one byte more than the command line has. */
  lemma {:induction false} StringsBound(s: seq<Byte>)
    ensures |Strings(Words(s))| <= |s| + if s == [] || s[0] == SPACE then 0 else 1
  {
    if s == [] {
    } else {
      StringsBound(s[1..]);
      OneBack(s[1..], s[0]);
      assert s == [s[0]] + s[1..];
    }
  }

  /** One byte `b` of the backwards copy.  The command line has `c` there, and `t` behind it. */
  method CopyByte(stack: array<Byte>, args: array<nat>, esp: nat, curArg: int, skipping: bool, b: Byte,
                  ghost c: Byte, ghost t: seq<Byte>)
    returns (sp: nat, cur: int, skip: bool)
    requires Copied(stack, args, Words(t), esp, curArg) && skipping == (t == [] || t[0] == SPACE)
    requires c != NUL && b == (if c == SPACE then NUL else c) && |Strings(Words([c] + t))| <= stack.Length
    requires |Words([c] + t)| <= args.Length
    modifies stack, args
    ensures Copied(stack, args, Words([c] + t), sp, cur) && skip == (c == SPACE)
  {
    OneBack(t, c);
    sp, cur, skip := esp, curArg, skipping;
    if b == NUL {
      skip := true;
    } else if skip {
      skip := false;
      sp, cur := CopyLast(stack, args, esp, curArg, b, Words(t));
    } else {
      sp := CopyMore(stack, args, esp, curArg, b, Words(t));
    }
  }

  /** The backwards copy of `start_process`.  The terminator at `farByte` counts as one more
      space at the end of the command line. */
  method CopyStrings(page: array<Byte>, farByte: nat, stack: array<Byte>, args: array<nat>, ghost s: seq<Byte>)
    returns (esp: nat)
    requires page != stack && farByte == HEADER + |s| - 1 && HEADER <= farByte < page.Length
    requires page[HEADER..farByte + 1] == Split(s) && NUL !in s
    requires args.Length == |Words(s)| && |Strings(Words(s))| <= stack.Length
    modifies stack, args
    ensures Copied(stack, args, Words(s), esp, 0)
  {
    esp := stack.Length;
    var curArg, skipping, i: int := args.Length, true, farByte;
    while i >= HEADER
      invariant HEADER - 1 <= i <= farByte
      invariant var t := s[i - HEADER + 1..];
                Copied(stack, args, Words(t), esp, curArg) && skipping == (t == [] || t[0] == SPACE)
    {
      ghost var k := i - HEADER;
      ghost var t := s[k + 1..];
      assert page[i] == Split(s)[k];
      RoomFor(s, k);
      assert s[k..] == [s[k]] + t && s[k] in s;
      esp, curArg, skipping := CopyByte(stack, args, esp, curArg, skipping, page[i], s[k], t);
      i := i - 1;
    }
    assert s[0..] == s;
  }

  lemma OneMoreSpace(s: seq<Byte>)
    ensures Split(s) + [NUL] == Split(s + [SPACE]) && Words(s + [SPACE]) == Words(s)
  {
    SpaceSeparates(s, []);
    assert s + [SPACE] + [] == s + [SPACE];
  }

  // ---------- the frame ----------

  /** The addresses of the strings when they end at address `top`. */
  ghost function Pointers(w: seq<seq<Byte>>, top: nat): (p: seq<nat>)
    requires |Strings(w)| <= top
    ensures |p| == |w| && forall k :: 0 <= k < |w| ==> p[k] == top - |Strings(w[k..])|
  {
    seq(|w|, k requires 0 <= k < |w| => StartOf(w, top, k))
  }

  ghost function StartOf(w: seq<seq<Byte>>, top: nat, k: nat): nat
    requires |Strings(w)| <= top && k <= |w|
  {
    StringsSuffix(w, k);
    top - |Strings(w[k..])|
  }

  function ReadWord(mem: seq<Byte>, at: nat): nat
    requires at + WORD_BYTES <= |mem|
  {
    Value(mem[at..at + WORD_BYTES])
  }

  /** The stack that the C calling convention asks for, at `esp` in a page at address `base`:
      a return address, argc, argv, the array of pointers that argv leads to with its null
      pointer, and behind it the strings, each where its pointer says, none overlapping. */
  ghost predicate Frame(mem: seq<Byte>, base: nat, esp: nat, w: seq<seq<Byte>>) {
    var argc, argv := |w|, esp + 12;
    && argv + 4 * (argc + 1) <= |mem|
    && ReadWord(mem, esp) == 0 && ReadWord(mem, esp + WORD_BYTES) == argc && ReadWord(mem, esp + 8) == base + argv
    && ReadWord(mem, argv + 4 * argc) == 0
    && StringsOk(mem, base, argv, w) && AllInOrder(mem, argv, w)
  }

  ghost predicate StringsOk(mem: seq<Byte>, base: nat, argv: nat, w: seq<seq<Byte>>)
    requires argv + 4 * (|w| + 1) <= |mem|
  {
    forall k {:trigger StringOk(mem, base, argv, w, k)} :: 0 <= k < |w| ==> StringOk(mem, base, argv, w, k)
  }

  ghost predicate AllInOrder(mem: seq<Byte>, argv: nat, w: seq<seq<Byte>>)
    requires argv + 4 * (|w| + 1) <= |mem|
  {
    forall j, k {:trigger InOrder(mem, argv, w, j, k)} :: 0 <= j < k < |w| ==> InOrder(mem, argv, w, j, k)
  }

  /** argv[k] leads to word `k` and its terminator, behind the array of pointers. */
  ghost predicate StringOk(mem: seq<Byte>, base: nat, argv: nat, w: seq<seq<Byte>>, k: nat)
    requires k < |w| && argv + 4 * (|w| + 1) <= |mem|
  {
    var p := ReadWord(mem, argv + 4 * k) - base;
    argv + 4 * (|w| + 1) <= p && p + |w[k]| + 1 <= |mem| && mem[p..p + |w[k]| + 1] == w[k] + [NUL]
  }

  /** Word `j` ends before word `k` starts. */
  ghost predicate InOrder(mem: seq<Byte>, argv: nat, w: seq<seq<Byte>>, j: nat, k: nat)
    requires j < k < |w| && argv + 4 * (|w| + 1) <= |mem|
  {
    ReadWord(mem, argv + 4 * j) + |w[j]| + 1 <= ReadWord(mem, argv + 4 * k)
  }

  lemma {:induction false} StringAt(w: seq<seq<Byte>>, k: nat)
    requires k < |w|
    ensures |w[k]| + 1 <= |Strings(w[k..])| <= |Strings(w)|
    ensures var at := |Strings(w)| - |Strings(w[k..])|; Strings(w)[at..at + |w[k]| + 1] == w[k] + [NUL]
  {
    if k == 0 {
      assert w[0..] == w;
      assert Strings(w)[..|w[0]| + 1] == w[0] + [NUL];
    } else {
      StringAt(w[1..], k - 1);
      assert w[1..][k - 1..] == w[k..];
      var front, rest := w[0] + [NUL], Strings(w[1..]);
      var at := |rest| - |Strings(w[k..])|;
      assert (front + rest)[|front| + at..|front| + at + |w[k]| + 1] == rest[at..at + |w[k]| + 1];
    }
  }

  lemma {:induction false} StringsApart(w: seq<seq<Byte>>, j: nat, k: nat)
    requires j < k <= |w|
    ensures |Strings(w[k..])| + |w[j]| + 1 <= |Strings(w[j..])|
  {
    assert w[j..][1..] == w[j + 1..];
    StringsSuffix(w[j + 1..], k - j - 1);
    assert w[j + 1..][k - j - 1..] == w[k..];
  }

  lemma {:induction false} WordAt(v: seq<nat>, k: nat, o: nat)
    requires k < |v| && o == 4 * k
    ensures o + WORD_BYTES <= |WordsOf(v)| && WordsOf(v)[o..o + WORD_BYTES] == Word(v[k])
  {
    if k == 0 {
    } else {
      WordAt(v[1..], k - 1, o - WORD_BYTES);
      var rest := WordsOf(v[1..]);
      var first := Word(v[0]);
      assert (first + rest)[o..o + WORD_BYTES] == rest[o - WORD_BYTES..o];
    }
  }

  /** The words below the strings, from the stack pointer up. */
  ghost function CallWords(argc: nat, argv: nat, ptrs: seq<nat>): (v: seq<nat>)
    ensures |v| == |ptrs| + 4
  {
    [0, argc, argv] + ptrs + [0]
  }

  ghost function FrameWords(w: seq<seq<Byte>>, base: nat, esp: nat, top: nat): (v: seq<nat>)
    requires |Strings(w)| <= base + top
    ensures |v| == |w| + 4
  {
    CallWords(|w|, base + esp + 12, Pointers(w, base + top))
  }

  lemma SliceIn(mem: seq<Byte>, esp: nat, front: seq<Byte>, rest: seq<Byte>, o: nat, n: nat, at: nat)
    requires esp <= |mem| && mem[esp..] == front + rest && o + n <= |front| && at == esp + o
    ensures at + n <= |mem| && mem[at..at + n] == front[o..o + n]
  {
    assert |mem[esp..]| == |front| + |rest|;
    var part := mem[at..at + n];
    forall k | 0 <= k < n ensures part[k] == front[o + k] { assert part[k] == mem[esp..][o + k]; }
  }

  lemma ReadIs(mem: seq<Byte>, at: nat, b: seq<Byte>, x: nat)
    requires at + WORD_BYTES <= |mem| && mem[at..at + WORD_BYTES] == b && b == Word(x) && x < Limit(WORD_BYTES)
    ensures ReadWord(mem, at) == x
  {
    LittleValue(x, WORD_BYTES);
  }

  lemma ReadSlice(mem: seq<Byte>, esp: nat, front: seq<Byte>, rest: seq<Byte>, o: nat, at: nat, x: nat)
    requires esp <= |mem| && mem[esp..] == front + rest && o + WORD_BYTES <= |front| && at == esp + o
    requires front[o..o + WORD_BYTES] == Word(x) && x < Limit(WORD_BYTES)
    ensures at + WORD_BYTES <= |mem| && ReadWord(mem, at) == x
  {
    SliceIn(mem, esp, front, rest, o, WORD_BYTES, at);
    ReadIs(mem, at, front[o..o + WORD_BYTES], x);
  }

  /** Word `i` of a list of words in memory. */
  lemma ReadAt(mem: seq<Byte>, esp: nat, v: seq<nat>, rest: seq<Byte>, i: nat, at: nat)
    requires esp <= |mem| && mem[esp..] == WordsOf(v) + rest && i < |v| && v[i] < Limit(WORD_BYTES) && at == esp + 4 * i
    ensures at + WORD_BYTES <= |mem| && ReadWord(mem, at) == v[i]
  {
    var o, b := 4 * i, WordsOf(v);
    WordAt(v, i, o);
    ReadSlice(mem, esp, b, rest, o, at, v[i]);
  }

  /** Pointer `k` of the frame. */
  lemma PointerAt(mem: seq<Byte>, base: nat, esp: nat, w: seq<seq<Byte>>, v: seq<nat>, k: nat, at: nat, p: int)
    requires esp <= |mem| && base + |mem| <= Limit(WORD_BYTES) && |Strings(w)| <= |mem|
    requires v == FrameWords(w, base, esp, |mem|) && mem[esp..] == WordsOf(v) + Strings(w)
    requires k < |w| && at == esp + 12 + 4 * k && p == |mem| - |Strings(w[k..])|
    ensures at + WORD_BYTES <= |mem| && ReadWord(mem, at) == base + p && |mem| == esp + 4 * (|w| + 4) + |Strings(w)|
  {
    StringAt(w, k);
    assert |mem[esp..]| == 4 * (|w| + 4) + |Strings(w)|;
    assert v[k + 3] == base + p;
    ReadAt(mem, esp, v, Strings(w), k + 3, at);
  }

  lemma StringBytes(mem: seq<Byte>, esp: nat, front: seq<Byte>, w: seq<seq<Byte>>, k: nat, p: int)
    requires esp <= |mem| && mem[esp..] == front + Strings(w) && k < |w| && p == |mem| - |Strings(w[k..])|
    ensures esp + |front| <= p && p + |w[k]| + 1 <= |mem| && mem[p..p + |w[k]| + 1] == w[k] + [NUL]
  {
    StringAt(w, k);
    var at := |Strings(w)| - |Strings(w[k..])|;
    assert |mem[esp..]| == |front| + |Strings(w)|;
    assert mem[p..p + |w[k]| + 1] == mem[esp..][|front| + at..|front| + at + |w[k]| + 1]
                                  == Strings(w)[at..at + |w[k]| + 1];
  }

  lemma StringIsOk(mem: seq<Byte>, base: nat, argv: nat, w: seq<seq<Byte>>, k: nat, at: nat, p: nat)
    requires k < |w| && argv + 4 * (|w| + 1) <= p && p + |w[k]| + 1 <= |mem| && mem[p..p + |w[k]| + 1] == w[k] + [NUL]
    requires at == argv + 4 * k && ReadWord(mem, at) == base + p
    ensures StringOk(mem, base, argv, w, k)
  {
  }

  lemma FrameString(mem: seq<Byte>, base: nat, esp: nat, w: seq<seq<Byte>>, v: seq<nat>, k: nat)
    requires esp <= |mem| && base + |mem| <= Limit(WORD_BYTES) && |Strings(w)| <= |mem|
    requires v == FrameWords(w, base, esp, |mem|) && mem[esp..] == WordsOf(v) + Strings(w) && k < |w|
    ensures esp + 12 + 4 * (|w| + 1) <= |mem| && StringOk(mem, base, esp + 12, w, k)
  {
    var at, p := esp + 12 + 4 * k, |mem| - |Strings(w[k..])|;
    PointerAt(mem, base, esp, w, v, k, at, p);
    StringBytes(mem, esp, WordsOf(v), w, k, p);
    StringIsOk(mem, base, esp + 12, w, k, at, p);
  }

  lemma OrderIsOk(mem: seq<Byte>, argv: nat, w: seq<seq<Byte>>, j: nat, k: nat, at: nat, at': nat, p: nat, p': nat)
    requires j < k < |w| && argv + 4 * (|w| + 1) <= |mem| && at == argv + 4 * j && at' == argv + 4 * k
    requires ReadWord(mem, at) == p && ReadWord(mem, at') == p' && p + |w[j]| + 1 <= p'
    ensures InOrder(mem, argv, w, j, k)
  {
  }

  lemma FrameOrder(mem: seq<Byte>, base: nat, esp: nat, w: seq<seq<Byte>>, v: seq<nat>, j: nat, k: nat)
    requires esp <= |mem| && base + |mem| <= Limit(WORD_BYTES) && |Strings(w)| <= |mem|
    requires v == FrameWords(w, base, esp, |mem|) && mem[esp..] == WordsOf(v) + Strings(w) && j < k < |w|
    ensures esp + 12 + 4 * (|w| + 1) <= |mem| && InOrder(mem, esp + 12, w, j, k)
  {
    var at, at', p, p' := esp + 12 + 4 * j, esp + 12 + 4 * k, |mem| - |Strings(w[j..])|, |mem| - |Strings(w[k..])|;
    PointerAt(mem, base, esp, w, v, j, at, p);
    PointerAt(mem, base, esp, w, v, k, at', p');
    StringsApart(w, j, k);
    OrderIsOk(mem, esp + 12, w, j, k, at, at', base + p, base + p');
  }

  lemma FrameNumbers(mem: seq<Byte>, esp: nat, v: seq<nat>, rest: seq<Byte>, argc: nat, a: nat)
    requires esp <= |mem| && mem[esp..] == WordsOf(v) + rest && |v| == argc + 4
    requires v[0] == 0 && v[1] == argc && v[2] == a && v[argc + 3] == 0 && 0 < argc < Limit(WORD_BYTES)
    requires 0 < a < Limit(WORD_BYTES)
    ensures esp + 12 + 4 * argc + 4 <= |mem|
    ensures ReadWord(mem, esp) == 0 && ReadWord(mem, esp + WORD_BYTES) == argc && ReadWord(mem, esp + 8) == a
    ensures ReadWord(mem, esp + 12 + 4 * argc) == 0
  {
    ReadAt(mem, esp, v, rest, 0, esp);
    ReadAt(mem, esp, v, rest, 1, esp + WORD_BYTES);
    ReadAt(mem, esp, v, rest, 2, esp + 8);
    ReadAt(mem, esp, v, rest, argc + 3, esp + 12 + 4 * argc);
  }

  lemma FrameStrings(mem: seq<Byte>, base: nat, esp: nat, w: seq<seq<Byte>>, v: seq<nat>)
    requires esp <= |mem| && base + |mem| <= Limit(WORD_BYTES) && |Strings(w)| <= |mem|
    requires v == FrameWords(w, base, esp, |mem|) && mem[esp..] == WordsOf(v) + Strings(w)
    requires esp + 12 + 4 * (|w| + 1) <= |mem|
    ensures StringsOk(mem, base, esp + 12, w) && AllInOrder(mem, esp + 12, w)
  {
    var argv := esp + 12;
    forall k | 0 <= k < |w| ensures StringOk(mem, base, argv, w, k) { FrameString(mem, base, esp, w, v, k); }
    forall j, k | 0 <= j < k < |w| ensures InOrder(mem, argv, w, j, k) { FrameOrder(mem, base, esp, w, v, j, k); }
  }

  /** Pointers and strings laid out this way make the frame. */
  lemma MakesFrame(mem: seq<Byte>, base: nat, esp: nat, w: seq<seq<Byte>>, v: seq<nat>)
    requires esp <= |mem| && base + |mem| <= Limit(WORD_BYTES) && |Strings(w)| <= |mem|
    requires v == FrameWords(w, base, esp, |mem|) && mem[esp..] == WordsOf(v) + Strings(w)
    requires w != []
    ensures Frame(mem, base, esp, w)
  {
    assert |mem[esp..]| == 4 * (|w| + 4) + |Strings(w)|;
    FrameNumbers(mem, esp, v, Strings(w), |w|, base + esp + 12);
    FrameStrings(mem, base, esp, w, v);
  }

  lemma WordsCons(x: nat, v: seq<nat>)
    ensures WordsOf([x] + v) == Word(x) + WordsOf(v)
  {
    assert ([x] + v)[1..] == v;
  }

  /** The array of pointers, from its null pointer down. */
  method PushPointers(stack: array<Byte>, esp: nat, args: array<nat>, base: nat, ghost ptrs: seq<nat>) returns (sp: nat)
    requires 4 * (args.Length + 1) <= esp <= stack.Length
    requires |ptrs| == args.Length && forall k :: 0 <= k < args.Length ==> ptrs[k] == base + args[k]
    modifies stack
    ensures sp == esp - 4 * (args.Length + 1) && stack[sp..] == WordsOf(ptrs + [0]) + old(stack[esp..])
  {
    ghost var rest := stack[esp..];
    sp := PushWord(stack, esp, 0);
    ghost var v: seq<nat> := [0];
    assert WordsOf(v) == Word(0);
    var i := args.Length;
    while i > 0
      invariant 0 <= i <= args.Length && sp == esp - 4 * (args.Length - i + 1) && v == ptrs[i..] + [0]
      invariant stack[sp..] == WordsOf(v) + rest
    {
      i := i - 1;
      sp := PushWord(stack, sp, base + args[i]);
      WordsCons(ptrs[i], v);
      assert ptrs[i..] + [0] == [ptrs[i]] + v;
      assert Word(ptrs[i]) + (WordsOf(v) + rest) == (Word(ptrs[i]) + WordsOf(v)) + rest;
      v := [ptrs[i]] + v;
    }
    assert ptrs[0..] == ptrs;
  }

  lemma FrontWords(x: nat, y: nat, z: nat, v: seq<nat>)
    ensures WordsOf([x, y, z] + v) == Word(x) + (Word(y) + (Word(z) + WordsOf(v)))
  {
    WordsCons(z, v);
    WordsCons(y, [z] + v);
    WordsCons(x, [y] + ([z] + v));
    assert [x, y, z] + v == [x] + ([y] + ([z] + v));
  }

  /** The words of the frame and what is above them. */
  lemma FrameBytes(stack: seq<Byte>, argc: nat, argv: nat, ptrs: seq<nat>, strings: seq<Byte>)
    requires stack == Word(0) + (Word(argc) + (Word(argv) + (WordsOf(ptrs + [0]) + strings)))
    ensures stack == WordsOf(CallWords(argc, argv, ptrs)) + strings
  {
    var v := ptrs + [0];
    FrontWords(0, argc, argv, v);
    assert [0, argc, argv] + ptrs + [0] == [0, argc, argv] + v;
    assert stack == Word(0) + (Word(argc) + (Word(argv) + WordsOf(v))) + strings;
  }

  /** The argv pointer, the argc value and the return address go on the stack. */
  method PushCall(stack: array<Byte>, sp: nat, argc: nat, argv: nat, ghost ptrs: seq<nat>,
                  ghost strings: seq<Byte>) returns (esp: nat)
    requires 12 <= sp <= stack.Length && stack[sp..] == WordsOf(ptrs + [0]) + strings
    modifies stack
    ensures esp == sp - 12 && stack[esp..] == WordsOf(CallWords(argc, argv, ptrs)) + strings
  {
    ghost var above := stack[sp..];
    esp := PushWord(stack, sp, argv);
    esp := PushWord(stack, esp, argc);
    esp := PushWord(stack, esp, 0);
    FrameBytes(stack[esp..], argc, argv, ptrs, strings);
  }

  /** The end of `start_process`: the strings and the frame below them.  `base` is the user
      address of the stack's first byte. */
  method BuildStack(page: array<Byte>, farByte: nat, numArgs: nat, stack: array<Byte>, base: nat,
                    ghost s: seq<Byte>) returns (esp: nat)
    requires page != stack && farByte == HEADER + |s| < page.Length && page[HEADER..farByte + 1] == Split(s) + [NUL]
    requires NUL !in s
    requires numArgs == |Words(s)| > 0 && |Strings(Words(s))| + 4 * (numArgs + 4) <= stack.Length
    requires base + stack.Length <= Limit(WORD_BYTES)
    modifies stack
    ensures Frame(stack[..], base, esp, Words(s))
  {
    ghost var w := Words(s);
    var args := new nat[numArgs];
    OneMoreSpace(s);
    esp := CopyStrings(page, farByte, stack, args, s + [SPACE]);
    args[0] := esp;
    assert w[0..] == w;
    ghost var ptrs := Pointers(w, base + stack.Length);
    esp := PushPointers(stack, esp, args, base, ptrs);
    esp := PushCall(stack, esp, numArgs, base + esp, ptrs, Strings(w));
    assert stack[..][esp..] == stack[esp..];
    MakesFrame(stack[..], base, esp, w, FrameWords(w, base, esp, stack.Length));
  }

  // ---------- the fit check ----------

  /** No space at either end, and no two in a row. */
  ghost predicate Tight(s: seq<Byte>) {
    && s != [] && s[0] != SPACE && s[|s| - 1] != SPACE
    && forall i :: 0 <= i < |s| - 1 ==> !(s[i] == SPACE && s[i + 1] == SPACE)
  }

  /** A byte in front of a tight line, or in front of a space and a tight line. */
  lemma TightFront(s: seq<Byte>)
    requires s != [] && s[0] != SPACE
    ensures |s| == 1 ==> Tight(s)
    ensures |s| > 1 && s[1] != SPACE ==> (Tight(s) <==> Tight(s[1..]))
    ensures |s| > 1 && s[1] == SPACE ==> (Tight(s) <==> Tight(s[2..]))
  {
    if |s| > 1 && s[1] != SPACE && Tight(s[1..]) {
      assert forall i {:trigger s[i]} :: 1 <= i < |s| - 1 ==> s[i] == s[1..][i - 1] && s[i + 1] == s[1..][i];
    } else if |s| > 1 && s[1] == SPACE && Tight(s[2..]) {
      assert forall i {:trigger s[i]} :: 2 <= i < |s| - 1 ==> s[i] == s[2..][i - 2] && s[i + 1] == s[2..][i - 1];
      assert s[2] == s[2..][0];
    }
  }

  /** The strings take one byte more than the command line has, if and only if it is tight. */
  lemma {:induction false} TightStrings(s: seq<Byte>)
    ensures |Strings(Words(s))| == |s| + 1 <==> Tight(s)
  {
    if s == [] {
    } else {
      OneBack(s[1..], s[0]);
      assert s == [s[0]] + s[1..];
      StringsBound(s[1..]);
      if s[0] != SPACE {
        TightFront(s);
        if |s| > 1 && s[1] == SPACE {
          OneBack(s[2..], s[1]);
          assert s[1..] == [s[1]] + s[2..];
          TightStrings(s[2..]);
        } else if |s| > 1 {
          TightStrings(s[1..]);
        }
      }
    }
  }

  /** What `start_process` takes for the length of the stack of a command line of `length` bytes. */
  function MaxStackLength(length: nat, numArgs: nat): nat {
    length + WORD_BYTES + numArgs * WORD_BYTES + WORD_BYTES + WORD_BYTES + WORD_BYTES
  }

  /** The bytes that go on the stack. */
  ghost function StackLength(s: seq<Byte>): nat {
    |Strings(Words(s))| + 4 * (|Words(s)| + 4)
  }

  /** A command line that passes the check fits on the page, unless it fills the page to the
      last byte by the check's count and is tight. */
  lemma CheckExact(s: seq<Byte>)
    requires MaxStackLength(|s|, |Words(s)|) <= PAGE_SIZE
    ensures StackLength(s) <= PAGE_SIZE <==> !(MaxStackLength(|s|, |Words(s)|) == PAGE_SIZE && Tight(s))
  {
    StringsBound(s);
    TightStrings(s);
  }

  /** A program name of one letter and one argument of 4070. */
  function FullLine(): (s: seq<Byte>)
    ensures |s| == 4072
  {
    [97] + [SPACE] + seq(4070, _ => 97)
  }

  /** It passes the check, and is one byte too long for the page. */
  lemma CheckFails()
    ensures MaxStackLength(|FullLine()|, |Words(FullLine())|) == PAGE_SIZE && StackLength(FullLine()) == PAGE_SIZE + 1
  {
    var name, argument := [97], seq(4070, _ => 97);
    OneWord(name);
    OneWord(argument);
    SpaceSeparates(name, argument);
    assert FullLine() == name + [SPACE] + argument;
    assert Words(FullLine()) == [name, argument];
    assert forall i :: 0 <= i < |FullLine()| && i != 1 ==> FullLine()[i] == 97;
    assert Tight(FullLine());
    TightStrings(FullLine());
  }

  /** The check of `start_process` and what follows it: a command line that fits by the check
      gets its frame, and one that does not ends the process. */
  method StartProcess(page: array<Byte>, farByte: nat, numArgs: nat, stack: array<Byte>, base: nat, ghost s: seq<Byte>)
    returns (esp: Option<nat>)
    requires page != stack && farByte == HEADER + |s| < page.Length && page[HEADER..farByte + 1] == Split(s) + [NUL]
    requires NUL !in s && numArgs == |Words(s)| > 0
    requires stack.Length == PAGE_SIZE && base + PAGE_SIZE <= Limit(WORD_BYTES)
    requires !(MaxStackLength(|s|, |Words(s)|) == PAGE_SIZE && Tight(s))
    modifies stack
    ensures esp == None <==> MaxStackLength(|s|, |Words(s)|) > PAGE_SIZE
    ensures esp == None ==> stack[..] == old(stack[..])
    ensures esp.Some? ==> Frame(stack[..], base, esp.value, Words(s))
  {
    if MaxStackLength(farByte - HEADER, numArgs) > PAGE_SIZE { return None; }
    CheckExact(s);
    var sp := BuildStack(page, farByte, numArgs, stack, base, s);
    esp := Some(sp);
  }
}
