/** The affinity mask of one CPU, as the kernel reads it: comma-separated groups of 32 bits. */
module CpuMask {
  import opened Arith
  import opened Lists

  const MASK_BIT := 32

  function Pow2(n: nat): (r: nat)
    ensures 0 < r
  {
    if n == 0 then 1 else 2 * Pow2(n - 1)
  }

  // ----- writing

  function HexDigit(d: nat): char
    requires d < 16
  {
    "0123456789abcdef"[d]
  }

  /** The `width` lowest hexadecimal digits of a number, most significant first. */
  function Hex(value: nat, width: nat): (s: string)
    ensures |s| == width && ',' !in s
  {
    if width == 0 then "" else Hex(value / 16, width - 1) + [HexDigit(value % 16)]
  }

  // ----- reading

  function DigitValue(c: char): (v: Option<nat>)
    ensures v.Some? ==> v.value < 16
  {
    if '0' <= c <= '9' then Some(c as nat - '0' as nat)
    else if 'a' <= c <= 'f' then Some(c as nat - 'a' as nat + 10)
    else None
  }

  function HexValue(s: string): Option<nat> {
    if s == "" then Some(0)
    else
      match (HexValue(s[..|s| - 1]), DigitValue(s[|s| - 1]))
      case (Some(high), Some(low)) => Some(16 * high + low)
      case _ => None
  }

  /** The text between the commas. */
  function Groups(s: string): (r: seq<string>)
    ensures r != []
  {
    if s == "" then [""]
    else
      var rest := Groups(s[1..]);
      if s[0] == ',' then [""] + rest else [[s[0]] + rest[0]] + rest[1..]
  }

  /** Groups of eight digits as one number, the first group being the most significant. */
  function GroupsValue(groups: seq<string>): Option<nat> {
    if groups == [] then Some(0)
    else
      var last := groups[|groups| - 1];
      match (GroupsValue(groups[..|groups| - 1]), HexValue(last))
      case (Some(high), Some(low)) => if |last| == MASK_BIT / 4 then Some(TWO_32 * high + low) else None
      case _ => None
  }

  /** What a mask denotes; `None` if it is not well-formed. */
  function MaskValue(mask: string): Option<nat> {
    GroupsValue(Groups(mask))
  }

  // ----- the loop and its meaning

  /** `cpu_to_mask`: the mask denotes the number with exactly the bit of the CPU set. */
  method CpuToMask(cpu: nat) returns (mask: string)
    ensures MaskValue(mask) == Some(Pow2(cpu))
  {
    var group := cpu / MASK_BIT;
    var bit := cpu % MASK_BIT;
    var value := Pow2(bit);
    mask := Hex(value, 8);
    FirstGroup(bit);
    var i := 0;
    while i < group
      invariant 0 <= i <= group
      invariant MaskValue(mask) == Some(Pow2(MASK_BIT * i + bit))
    {
      NextGroup(mask, MASK_BIT * i + bit);
      mask := mask + "," + "00000000";
      i := i + 1;
    }
  }

  /** Different CPUs have different masks. */
  lemma MasksDiffer(a: nat, b: nat, mask: string)
    requires MaskValue(mask) == Some(Pow2(a)) && MaskValue(mask) == Some(Pow2(b))
    ensures a == b
  {
    if a < b { Pow2Grows(a, b); }
    if b < a { Pow2Grows(b, a); }
  }

  lemma {:induction false} Pow2Grows(a: nat, b: nat)
    requires a < b
    ensures Pow2(a) < Pow2(b)
  {
    if a + 1 < b { Pow2Grows(a, b - 1); }
  }

  lemma {:induction false} Pow2Add(a: nat, b: nat)
    ensures Pow2(a + b) == Pow2(a) * Pow2(b)
  {
    if b > 0 { Pow2Add(a, b - 1); }
  }

  lemma Pow2Of32()
    ensures Pow2(4) == 16 && Pow2(32) == TWO_32
  {
    assert Pow2(4) == 16;
    Pow2Add(4, 4);
    Pow2Add(8, 8);
    Pow2Add(16, 16);
  }

  /** Reading back the digits of a number that fits them. */
  lemma {:induction false} HexRoundTrip(value: nat, width: nat)
    requires value < Pow2(4 * width)
    ensures HexValue(Hex(value, width)) == Some(value)
  {
    if width > 0 {
      var s := Hex(value, width);
      Pow2Add(4 * (width - 1), 4);
      Pow2Of32();
      HexRoundTrip(value / 16, width - 1);
      assert s[..|s| - 1] == Hex(value / 16, width - 1);
      assert DigitValue(HexDigit(value % 16)) == Some(value % 16);
    }
  }

  lemma {:induction false} GroupsOfOne(s: string)
    requires ',' !in s
    ensures Groups(s) == [s]
  {
    if s != "" {
      var c := s[0];
      assert c in s && s == [c] + s[1..];
      GroupsOfOne(s[1..]);
    }
  }

  lemma {:induction false} GroupsAppend(s: string, t: string)
    requires ',' !in t
    ensures Groups(s + "," + t) == Groups(s) + [t]
  {
    if s == "" {
      assert (s + "," + t)[1..] == t;
      GroupsOfOne(t);
    } else {
      assert (s + "," + t)[1..] == s[1..] + "," + t;
      GroupsAppend(s[1..], t);
    }
  }

  lemma OneGroup(s: string, v: nat)
    requires ',' !in s && |s| == MASK_BIT / 4 && HexValue(s) == Some(v)
    ensures MaskValue(s) == Some(v)
  {
    GroupsOfOne(s);
    var groups := [s];
    assert groups[..|groups| - 1] == [] && groups[|groups| - 1] == s;
    assert GroupsValue(groups) == Some(TWO_32 * 0 + v);
  }

  lemma FirstGroup(bit: nat)
    requires bit < MASK_BIT
    ensures MaskValue(Hex(Pow2(bit), 8)) == Some(Pow2(bit))
  {
    hide Pow2, Hex, HexValue, Groups, GroupsValue, MaskValue;
    Pow2Grows(bit, MASK_BIT);
    HexRoundTrip(Pow2(bit), 8);
    OneGroup(Hex(Pow2(bit), 8), Pow2(bit));
  }

  /** A further group of zeros multiplies the number by 2^32. */
  lemma NextGroup(mask: string, k: nat)
    requires MaskValue(mask) == Some(Pow2(k))
    ensures MaskValue(mask + "," + "00000000") == Some(Pow2(k + MASK_BIT))
  {
    var zeros := "00000000";
    GroupsAppend(mask, zeros);
    var groups := Groups(mask) + [zeros];
    assert groups[..|groups| - 1] == Groups(mask);
    assert zeros == Hex(0, 8) && HexValue(zeros) == Some(0) by {
      Zeros(8);
      HexRoundTrip(0, 8);
    }
    Pow2Add(k, 32);
    Pow2Of32();
    hide Pow2, Hex, HexValue;
  }

  lemma {:induction false} Zeros(width: nat)
    ensures Hex(0, width) == seq(width, _ => '0')
  {
    if width > 0 { Zeros(width - 1); }
  }
}
