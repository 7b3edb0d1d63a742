/** Derivation paths for YubiHSM secrets: length-prefixed components (src/commands/yubihsm/setup.rs). */
module DerivationPath {
  import opened Base

  const DERIVATION_VERSION: bytes := [0x31]
  const WRAP: bytes := [0x77, 0x72, 0x61, 0x70]
  const ROLE: bytes := [0x72, 0x6f, 0x6c, 0x65]

  /**
   * `(component.len() - 1) as u8`, then the component. For an empty component the subtraction panics
   * in a debug build; here it wraps, as in a release build, and the byte is 255.
   */
  function Component(c: bytes): bytes {
    [AsU8(|c| - 1)] + c
  }

  function Concatenated(path: seq<bytes>): bytes {
    if path == [] then [] else Component(path[0]) + Concatenated(path[1..])
  }

  /** `construct_derivation_path`: version first, then every component, each with its length. */
  method ConstructDerivationPath(path: seq<bytes>) returns (result: bytes)
    ensures result == Concatenated([DERIVATION_VERSION] + path)
  {
    result := [AsU8(|DERIVATION_VERSION| - 1)] + DERIVATION_VERSION;
    for i := 0 to |path|
      invariant result == Concatenated([DERIVATION_VERSION] + path[..i])
    {
      result := result + [AsU8(|path[i]| - 1)];
      result := result + path[i];
      ConcatenatedSnoc([DERIVATION_VERSION] + path[..i], path[i]);
      assert [DERIVATION_VERSION] + path[..i] + [path[i]] == [DERIVATION_VERSION] + path[..i + 1];
    }
    assert path[..|path|] == path;
  }

  lemma {:induction false} ConcatenatedSnoc(path: seq<bytes>, c: bytes)
    ensures Concatenated(path + [c]) == Concatenated(path) + Component(c)
  {
    if path != [] {
      ConcatenatedSnoc(path[1..], c);
      assert (path + [c])[1..] == path[1..] + [c];
    }
  }

  /** Read the components back; `None` if the last one is cut short. */
  function Parse(b: bytes): (r: Option<seq<bytes>>)
    ensures r.Some? ==> forall i :: 0 <= i < |r.value| ==> 1 <= |r.value[i]| <= 256
    decreases |b|
  {
    if b == [] then Some([])
    else
      var end := b[0] as int + 2;
      if |b| < end then None
      else
        var rest := Parse(b[end..]);
        if rest.None? then None else Some([b[1..end]] + rest.value)
  }

  ghost predicate ProperLengths(path: seq<bytes>) {
    forall i :: 0 <= i < |path| ==> 1 <= |path[i]| <= 256
  }

  lemma {:induction false} ProperPathsParse(path: seq<bytes>)
    requires ProperLengths(path)
    ensures Parse(Concatenated(path)) == Some(path)
  {
    if path != [] {
      ProperPathsParse(path[1..]);
      var b := Concatenated(path);
      assert b[0] == |path[0]| - 1;
      assert b[1..b[0] as int + 2] == path[0];
      assert b[b[0] as int + 2..] == Concatenated(path[1..]);
      assert path == [path[0]] + path[1..];
    }
  }

  /** A path is read back exactly if and only if each component has 1 to 256 bytes. */
  lemma ParsesBackIffProper(path: seq<bytes>)
    ensures Parse(Concatenated(path)) == Some(path) <==> ProperLengths(path)
  {
    if ProperLengths(path) {
      ProperPathsParse(path);
    }
  }

  lemma PathsInjective(p: seq<bytes>, q: seq<bytes>)
    requires ProperLengths(p) && ProperLengths(q) && Concatenated(p) == Concatenated(q)
    ensures p == q
  {
    ProperPathsParse(p);
    ProperPathsParse(q);
  }

  /** Without the length condition two different paths can share their bytes. */
  lemma ImproperPathsCollide(tail: bytes)
    requires |tail| == 255
    ensures Concatenated([[7, 254] + tail]) == Concatenated([[7], tail])
    ensures [[7, 254] + tail] != [[7], tail]
  {
    var long: bytes := [7, 254] + tail;
    assert AsU8(|long| - 1) == 0;
    assert Concatenated([long]) == [0] + long + [];
    assert [[7], tail][1..] == [tail] && [tail][1..] == [];
    assert Concatenated([tail]) == [254] + tail + Concatenated([]);
    assert Concatenated([[7], tail]) == [0, 7] + ([254] + tail + []);
    assert [long][0] != [[7], tail][0];
  }

  // ---------------------------------------------------------------- key IDs

  function HexDigit(n: nat): u8
    requires n < 16
  {
    if n < 10 then 0x30 + n else 0x61 + (n - 10)
  }

  /** `format!("0x{:04x}", key_id)` on a 16-bit ID. */
  function SerializeKeyId(id: u16): (s: bytes)
    ensures |s| == 6
  {
    [0x30, 0x78, HexDigit(id / 4096), HexDigit(id / 256 % 16), HexDigit(id / 16 % 16), HexDigit(id % 16)]
  }

  /** The value of a lower-case hexadecimal digit. */
  function HexValue(c: char): Option<nat> {
    if '0' <= c <= '9' then Some(c as int - '0' as int)
    else if 'a' <= c <= 'f' then Some(c as int - 'a' as int + 10)
    else None
  }

  /** A number in lower-case hexadecimal, most significant digit first. */
  function ReadHex(s: string): Option<nat> {
    if s == [] then Some(0)
    else
      var (high, low) := (ReadHex(s[..|s| - 1]), HexValue(s[|s| - 1]));
      if high.None? || low.None? then None else Some(16 * high.value + low.value)
  }

  /** ASCII. */
  function Chars(b: bytes): string {
    seq(|b|, i requires 0 <= i < |b| => b[i] as char)
  }

  lemma HexDigitReads(n: nat)
    requires n < 16
    ensures HexValue(HexDigit(n) as char) == Some(n)
  {
  }

  lemma ReadHexSnoc(s: string, c: char)
    ensures ReadHex(s + [c]) ==
            if ReadHex(s).None? || HexValue(c).None? then None
            else Some(16 * ReadHex(s).value + HexValue(c).value)
  {
    assert (s + [c])[..|s|] == s;
  }

  /** The text is "0x" and four lower-case hexadecimal digits that read as the ID. */
  lemma SerializeKeyIdReads(id: u16)
    ensures Chars(SerializeKeyId(id))[..2] == "0x"
    ensures |Chars(SerializeKeyId(id))[2..]| == 4 && ReadHex(Chars(SerializeKeyId(id))[2..]) == Some(id)
  {
    var (a, b, c, d) := (id / 4096, id / 256 % 16, id / 16 % 16, id % 16);
    var (w, x, y, z) := (HexDigit(a) as char, HexDigit(b) as char, HexDigit(c) as char, HexDigit(d) as char);
    var s := Chars(SerializeKeyId(id));
    assert s[2..] == [] + [w] + [x] + [y] + [z];
    HexDigitReads(a);
    HexDigitReads(b);
    HexDigitReads(c);
    HexDigitReads(d);
    ReadHexSnoc([], w);
    ReadHexSnoc([] + [w], x);
    ReadHexSnoc([] + [w] + [x], y);
    ReadHexSnoc([] + [w] + [x] + [y], z);
    Digits(id);
  }

  lemma Digits(x: u16)
    ensures x == x / 4096 * 4096 + x / 256 % 16 * 256 + x / 16 % 16 * 16 + x % 16
  {
    var q := x / 16;
    var r := q / 16;
    var s := r / 16;
    assert x / 256 == r by { SmallerDivision(x, q); }
    assert x / 4096 == s by { SmallerDivision(q, r); }
    assert x == 16 * q + x % 16 && q == 16 * r + q % 16 && r == 16 * s + r % 16;
  }

  lemma SmallerDivision(x: nat, q: nat)
    requires q == x / 16
    ensures x / 256 == q / 16
  {
  }

  lemma SerializeKeyIdInjective(a: u16, b: u16)
    requires SerializeKeyId(a) == SerializeKeyId(b)
    ensures a == b
  {
    SerializeKeyIdReads(a);
    SerializeKeyIdReads(b);
  }

  function WrapKeyPath(id: u16): bytes {
    Concatenated([DERIVATION_VERSION, WRAP, SerializeKeyId(id)])
  }

  function RolePath(name: bytes): bytes {
    Concatenated([DERIVATION_VERSION, ROLE, name])
  }

  /** Wrap keys are told apart by their IDs, roles by their names, and wrap keys from roles. */
  lemma SecretsHaveTheirOwnPaths(a: u16, b: u16, x: bytes, y: bytes)
    requires 1 <= |x| <= 256 && 1 <= |y| <= 256
    ensures WrapKeyPath(a) == WrapKeyPath(b) <==> a == b
    ensures RolePath(x) == RolePath(y) <==> x == y
    ensures WrapKeyPath(a) != RolePath(x)
  {
    var wrapA, wrapB := [DERIVATION_VERSION, WRAP, SerializeKeyId(a)], [DERIVATION_VERSION, WRAP, SerializeKeyId(b)];
    var roleX, roleY := [DERIVATION_VERSION, ROLE, x], [DERIVATION_VERSION, ROLE, y];
    if WrapKeyPath(a) == WrapKeyPath(b) {
      PathsInjective(wrapA, wrapB);
      assert wrapA[2] == wrapB[2];
      SerializeKeyIdInjective(a, b);
    }
    if RolePath(x) == RolePath(y) {
      PathsInjective(roleX, roleY);
      assert roleX[2] == roleY[2];
    }
    assert wrapA[1] != roleX[1] by {
      assert WRAP[0] != ROLE[0];
    }
    if WrapKeyPath(a) == RolePath(x) {
      PathsInjective(wrapA, roleX);
    }
  }

  /** The text of a path: version, purpose and key ID or role name, each after its length less one. */
  lemma PathsSpelledOut(id: u16, name: bytes)
    requires 1 <= |name| <= 256
    ensures Parse(WrapKeyPath(id)).Some? && |Parse(WrapKeyPath(id)).value| == 3
    ensures Chars(Parse(WrapKeyPath(id)).value[0]) == "1" && Chars(Parse(WrapKeyPath(id)).value[1]) == "wrap"
    ensures Parse(WrapKeyPath(id)).value[2] == SerializeKeyId(id)
    ensures Parse(RolePath(name)).Some? && |Parse(RolePath(name)).value| == 3
    ensures Chars(Parse(RolePath(name)).value[0]) == "1" && Chars(Parse(RolePath(name)).value[1]) == "role"
    ensures Parse(RolePath(name)).value[2] == name
  {
    ThreeComponents(DERIVATION_VERSION, WRAP, SerializeKeyId(id));
    ThreeComponents(DERIVATION_VERSION, ROLE, name);
  }

  lemma ThreeComponents(a: bytes, b: bytes, c: bytes)
    requires 1 <= |a| <= 256 && 1 <= |b| <= 256 && 1 <= |c| <= 256
    ensures Parse(Concatenated([a, b, c])) == Some([a, b, c])
  {
    ProperPathsParse([a, b, c]);
  }
}
