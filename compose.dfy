/**
 * A pipe that composes functions left to right: `pipe().to(f).to(g)` is a
 * pipe computing `g(f(x))`, and `call(x)` runs it. Rust's boxed closures,
 * lifetimes and the `println!` of the demonstration are not modelled.
 */
module Compose {

  /** A pipe from `T` to `U`: the function composed so far. */
  datatype Pipe<!T, U> = Pipe(wrapped: T -> U)
  {
    /** `Pipe::to`: post-composes `f`. */
    function To<V>(f: U -> V): Pipe<T, V>
    {
      Pipe(arg => f(wrapped(arg)))
    }

    /** `Pipe::call`. */
    function Call(arg: T): U
    {
      wrapped(arg)
    }
  }

  /** The empty pipe, before its first function. */
  datatype PipeMaker = PipeMaker
  {
    /** `PipeMaker::to`: a pipe made of `f` alone. */
    function To<T, U>(f: T -> U): Pipe<T, U>
    {
      Pipe(f)
    }
  }

  /** `pipe()`. */
  function NewPipe(): PipeMaker
  {
    PipeMaker
  }

  /** A pipe of one function computes that function. */
  lemma MakerToCall<T, U>(f: T -> U, x: T)
    ensures NewPipe().To(f).Call(x) == f(x)
  {
  }

  /** Appending `g` applies `g` to what the pipe computed. */
  lemma ToCall<T, U, V>(p: Pipe<T, U>, g: U -> V, x: T)
    ensures p.To(g).Call(x) == g(p.Call(x))
  {
  }

  /** Chained `to` calls apply their functions left to right. */
  lemma ChainLeftToRight<A, B, C, D>(f: A -> B, g: B -> C, h: C -> D, x: A)
    ensures NewPipe().To(f).To(g).To(h).Call(x) == h(g(f(x)))
  {
  }

  /** Appending `g` then `h` computes what appending `x => h(g(x))` once does. */
  lemma ToAssociative<T, U, V, W>(p: Pipe<T, U>, g: U -> V, h: V -> W, x: T)
    ensures p.To(g).To(h).Call(x) == p.To(y => h(g(y))).Call(x)
  {
  }

  // ---------------------------------------------------------------------------
  // The composition built in `main`
  // ---------------------------------------------------------------------------

  /** Number of bytes of the UTF-8 encoding of `c`. */
  function Utf8Width(c: char): nat
  {
    if c as int < 0x80 then 1
    else if c as int < 0x800 then 2
    else if c as int < 0x1_0000 then 3
    else 4
  }

  /** `String::len`: the length in bytes of the UTF-8 encoding. */
  function Utf8Len(s: string): nat
  {
    if s == [] then 0 else Utf8Width(s[0]) + Utf8Len(s[1..])
  }

  lemma {:induction false} Utf8LenAppend(a: string, b: string)
    ensures Utf8Len(a + b) == Utf8Len(a) + Utf8Len(b)
    decreases |a|
  {
    if a == [] {
      assert a + b == b;
    } else {
      assert (a + b)[1..] == a[1..] + b;
      Utf8LenAppend(a[1..], b);
    }
  }

  /** For ASCII text the byte length is the number of characters. */
  lemma {:induction false} Utf8LenAscii(s: string)
    requires forall i :: 0 <= i < |s| ==> s[i] as int < 0x80
    ensures Utf8Len(s) == |s|
    decreases |s|
  {
    if s != [] {
      Utf8LenAscii(s[1..]);
    }
  }

  /** The first closure: a copy of the word with `!` pushed onto its end. */
  function AppendExclamation(word: string): (newWord: string)
    ensures |newWord| == |word| + 1
    ensures newWord[..|word|] == word && newWord[|word|] == '!'
  {
    word + "!"
  }

  /** The second closure: `word.len()`. */
  function Num(word: string): nat
  {
    Utf8Len(word)
  }

  /** The third closure. */
  function AddOne(num: nat): nat
  {
    num + 1
  }

  /** `pipe().to(append_exclamation).to(num).to(add_one)`. */
  function Composed(): Pipe<string, nat>
  {
    NewPipe().To(AppendExclamation).To(Num).To(AddOne)
  }

  /** The composed pipe returns the byte length of the word plus two. */
  lemma ComposedIsLengthPlusTwo(w: string)
    ensures Composed().Call(w) == Utf8Len(w) + 2
  {
    ChainLeftToRight(AppendExclamation, Num, AddOne, w);
    assert Composed().Call(w) == AddOne(Num(w + "!"));
    Utf8LenAppend(w, "!");
    assert Utf8Len("!") == 1;
  }

  /** `composed.call("Hi")` is 4. */
  lemma HiGivesFour()
    ensures Composed().Call("Hi") == 4
  {
    ComposedIsLengthPlusTwo("Hi");
    Utf8LenAscii("Hi");
  }
}
