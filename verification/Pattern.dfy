/**
 Patterns as abstract syntax. A compiled expression is a flat list of items, since
 groups are never repeated: `*` after `\(` or `\)` is an ordinary character. An item
 is a head with the modifiers that `*` and `\{m,n\}` patched onto it. Every text that
 the compiler accepts has such a list; the matcher handles the `Supported` ones.
 */
module Pattern {
  import opened Bits

  const NBRA := 9

  datatype Head =
    | Lit(c: byte)
    | Dot
    | Bracket(neg: bool, members: set<byte>, wide: bool)
    | Open(g: byte)
    | Close(g: byte)
    | Ref(g: byte)
    | Dollar

  datatype Interval = Interval(lo: byte, hi: byte)

  datatype Item = Item(head: Head, star: bool, ranges: seq<Interval>)

  /** The upper bound that stands for "no upper bound" in `\{m,\}`. */
  const UNBOUNDED: byte := 255

  /** What an open-ended interval allows beyond its lower bound. */
  const OPEN_SLACK := 20000

  predicate IsSingle(h: Head) {
    h.Lit? || h.Dot? || h.Bracket?
  }

  predicate Repeated(it: Item) {
    it.star || it.ranges != []
  }

  /** Does one character atom accept byte `c`? No atom accepts NUL. */
  predicate Accepts(h: Head, c: byte) {
    match h
    case Lit(d) => c == d && c != 0
    case Dot => c != 0
    case Bracket(neg, members, _) => c != 0 && (c in members) != neg
    case _ => false
  }

  predicate SoundInterval(r: Interval) {
    r.lo <= r.hi
  }

  /** The heads the compiler writes, with the facts it guarantees about them. */
  predicate SoundHead(h: Head) {
    match h
    case Bracket(_, members, wide) => 0 !in members && (wide || forall c :: c in members ==> c < 128)
    case Open(g) => g < NBRA
    case Close(g) => g < NBRA
    case Ref(g) => g < NBRA
    case _ => true
  }

  predicate SoundItem(it: Item) {
    && SoundHead(it.head)
    && (forall k :: 0 <= k < |it.ranges| ==> SoundInterval(it.ranges[k]))
    && (it.head.Dollar? ==> !Repeated(it))
    && (it.star && (it.head.Open? || it.head.Close?) ==> it.ranges != [])
  }

  /**
   The items the matcher has cases for: no NUL literal, at most one interval, and
   that only on a character atom.
   */
  predicate Supported(it: Item) {
    && Executable(it)
    && it.head != Lit(0)
  }

  predicate Executable(it: Item) {
    && SoundItem(it)
    && |it.ranges| <= (if IsSingle(it.head) then 1 else 0)
  }

  predicate AllSound(items: seq<Item>) {
    forall k :: 0 <= k < |items| ==> SoundItem(items[k])
  }

  predicate AllSupported(items: seq<Item>) {
    forall k :: 0 <= k < |items| ==> Supported(items[k])
  }

  /**
   With `begun` and `ended` the groups already opened and closed, does every group
   in the rest open once, close once after that, and get referenced only after closing?
   */
  predicate WellScoped(items: seq<Item>, begun: set<byte>, ended: set<byte>) {
    if items == [] then true
    else
      match items[0].head
      case Open(g) => g !in begun && WellScoped(items[1..], begun + {g}, ended)
      case Close(g) => g in begun && g !in ended && WellScoped(items[1..], begun, ended + {g})
      case Ref(g) => g in begun && g in ended && WellScoped(items[1..], begun, ended)
      case _ => WellScoped(items[1..], begun, ended)
  }

  /** The patterns that the matching theorems are about. */
  predicate InFragment(items: seq<Item>) {
    AllSupported(items) && WellScoped(items, {}, {})
  }
}
