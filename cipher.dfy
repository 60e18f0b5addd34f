/** The password-derived key of `RCFile` and the cipher that uses it: the
    password's CRC-32 seeds 256 key words, and the payload is XOR-ed with
    the resulting 1024 bytes, repeated. */
module Cipher {
  import opened Common
  import Utils
  import Crc

  /** The length of a configured key. */
  const KeySize: nat := 0x400

  /** The number of 32-bit words in a key. */
  const Words: nat := 0x100

  lemma XorTwice(a: byte, b: byte)
    ensures Xor8(Xor8(a, b), b) == a
  {
    XorBitsTwice(a, b);
  }

  /** Key word `i` (`0 <= i < 256`): the checksum XOR the table entry that
      `i + crc` selects (32-bit addition, low byte). */
  function KeyWord(crc: uint, i: nat): uint
    requires i < Words
  {
    Xor32(crc, Crc.Table()[(i + crc) % 0x100])
  }

  /** The first `n` key words, each stored least significant byte first. */
  function KeyPrefix(crc: uint, n: nat): (k: seq<byte>)
    requires n <= Words
    ensures |k| == 4 * n
  {
    if n == 0 then [] else KeyPrefix(crc, n - 1) + UInt32Bytes(KeyWord(crc, n - 1))
  }

  /** The key a password yields. */
  function KeyOf(password: seq<byte>): (k: seq<byte>)
    ensures |k| == KeySize
  {
    KeyPrefix(Crc.Crc(password), Words)
  }

  /** Bytes `4i .. 4i + 3` of the key are key word `i`, little-endian. */
  lemma {:induction false} KeyWordAt(crc: uint, n: nat, i: nat)
    requires i < n <= Words
    ensures KeyPrefix(crc, n)[4 * i..4 * i + 4] == UInt32Bytes(KeyWord(crc, i))
  {
    var front, word := KeyPrefix(crc, n - 1), UInt32Bytes(KeyWord(crc, n - 1));
    assert KeyPrefix(crc, n) == front + word;
    if i < n - 1 {
      KeyWordAt(crc, n - 1, i);
      SliceOfFront(front, word, 4 * i, 4 * i + 4);
    } else {
      assert (front + word)[|front|..] == word;
    }
  }

  lemma SliceOfFront(front: seq<byte>, back: seq<byte>, lo: nat, hi: nat)
    requires lo <= hi <= |front|
    ensures (front + back)[lo..hi] == front[lo..hi]
  {
  }

  /** `data` XOR-ed byte by byte with the key, the key repeating every
      1024 bytes (`j & 0x3FF`). */
  function Crypted(key: seq<byte>, data: seq<byte>): (r: seq<byte>)
    requires |key| == KeySize
    ensures |r| == |data|
    ensures forall j :: 0 <= j < |data| ==> r[j] == Xor8(data[j], key[j % KeySize])
  {
    seq(|data|, j requires 0 <= j < |data| => Xor8(data[j], key[j % KeySize]))
  }

  /** The cipher is its own inverse: encrypting twice gives back the data. */
  lemma CryptedTwice(key: seq<byte>, data: seq<byte>)
    requires |key| == KeySize
    ensures Crypted(key, Crypted(key, data)) == data
  {
    var once := Crypted(key, data);
    forall j | 0 <= j < |data|
      ensures Crypted(key, once)[j] == data[j]
    {
      XorTwice(data[j], key[j % KeySize]);
    }
  }

  /** The key holder of the container tool: empty until a password is set. */
  class RCFile {
    var imgKey: seq<byte>

    /** The key is either absent or complete. */
    predicate Valid()
      reads this
    {
      |imgKey| == 0 || |imgKey| == KeySize
    }

    constructor ()
      ensures imgKey == [] && Valid()
    {
      imgKey := [];
    }

    /** Derives the 1024-byte key from the password bytes. */
    method SetPassword(password: seq<byte>)
      modifies this
      ensures imgKey == KeyOf(password) && Valid()
    {
      var binPass := new byte[|password|](j requires 0 <= j < |password| => password[j]);
      assert binPass[0..binPass.Length] == password;
      var crc := Crc.Compute(binPass, 0, binPass.Length);
      assert crc == Crc.Crc(password);
      var key := FillKey(crc);
      imgKey := key[..];
    }

    /** The key-schedule loop: word `i` goes to bytes `4i .. 4i + 3`. */
    static method FillKey(crc: uint) returns (key: array<byte>)
      ensures fresh(key) && key[..] == KeyPrefix(crc, Words)
    {
      key := new byte[KeySize];
      for i := 0 to Words
        invariant key[..4 * i] == KeyPrefix(crc, i)
      {
        ghost var before := key[..];
        var word := Xor32(crc, Crc.Table()[(i + crc) % 0x100]);
        Utils.WriteUint32LE(key, 4 * i, word);
        StoredAfter(before, key[..], 4 * i, UInt32Bytes(KeyWord(crc, i)));
      }
    }

    /** Encrypts or decrypts `data` in place; reports whether a key was
        configured, and leaves the data alone when none was. */
    method DoCrypt(data: array<byte>) returns (ok: bool)
      requires Valid()
      modifies data
      ensures ok <==> |imgKey| == KeySize
      ensures ok ==> data[..] == Crypted(imgKey, old(data[..]))
      ensures !ok ==> data[..] == old(data[..])
    {
      if |imgKey| == 0 {
        return false;
      }
      ghost var orig := data[..];
      for i := 0 to data.Length
        invariant forall j :: 0 <= j < i ==> data[j] == Xor8(orig[j], imgKey[j % KeySize])
        invariant forall j :: i <= j < data.Length ==> data[j] == orig[j]
      {
        data[i] := Xor8(data[i], imgKey[i % KeySize]);
      }
      assert data[..] == Crypted(imgKey, orig);
      return true;
    }
  }
}
