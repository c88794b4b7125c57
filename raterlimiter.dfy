/**
 * src/raterlimiter.rs: the key under which a client is rate limited, and the
 * step that hands that key to the keyed limiter.
 *
 * The limiter itself (a token bucket over a concurrent map and the wall
 * clock) is an opaque decision procedure: given the queries it has seen so
 * far and a new query, it admits or denies.
 */
module RateLimiter {
  import opened Common

  type Ipv4Octets = s: seq<byte> | |s| == 4 witness [0, 0, 0, 0]
  type Ipv6Segments = s: seq<u16> | |s| == 8 witness [0, 0, 0, 0, 0, 0, 0, 0]

  /** Rust's `IpAddr`: four octets, or eight 16-bit segments. */
  datatype IpAddr = V4(octets: Ipv4Octets) | V6(segments: Ipv6Segments)

  /**
   * `normalise_ip_addr`: IPv4 addresses are used as they are; an IPv6
   * address keeps its first four segments (its /64 prefix) and the other
   * four become zero.
   */
  function NormaliseIpAddr(addr: IpAddr): (key: IpAddr)
    ensures addr.V4? ==> key == addr
    ensures addr.V6? ==> key.V6? && key.segments[..4] == addr.segments[..4]
    ensures addr.V6? ==> forall i :: 4 <= i < 8 ==> key.segments[i] == 0
  {
    match addr
    case V4(_) => addr
    case V6(s) => V6([s[0], s[1], s[2], s[3], 0, 0, 0, 0])
  }

  /** Independent reference: two addresses belong to the same client. */
  predicate SameClient(a: IpAddr, b: IpAddr) {
    match (a, b)
    case (V4(x), V4(y)) => x == y
    case (V6(x), V6(y)) => x[..4] == y[..4]
    case _ => false
  }

  /** A key that normalisation leaves as it is. */
  predicate IsNormalised(key: IpAddr) {
    NormaliseIpAddr(key) == key
  }

  /** Normalising twice is normalising once. */
  lemma NormaliseIdempotent(addr: IpAddr)
    ensures NormaliseIpAddr(NormaliseIpAddr(addr)) == NormaliseIpAddr(addr)
  {
  }

  /** The address family is kept. */
  lemma NormalisePreservesFamily(addr: IpAddr)
    ensures NormaliseIpAddr(addr).V4? <==> addr.V4?
  {
  }

  /** An IPv4 key never equals an IPv6 key. */
  lemma V4NeverSharesKeyWithV6(a: IpAddr, b: IpAddr)
    requires a.V4? && b.V6?
    ensures NormaliseIpAddr(a) != NormaliseIpAddr(b)
  {
  }

  /** One key per client: two addresses share a key exactly when they are the same client. */
  lemma {:induction false} SameKeyIffSameClient(a: IpAddr, b: IpAddr)
    ensures NormaliseIpAddr(a) == NormaliseIpAddr(b) <==> SameClient(a, b)
  {
    match (a, b)
    case (V6(x), V6(y)) =>
      var ka, kb := NormaliseIpAddr(a).segments, NormaliseIpAddr(b).segments;
      if x[..4] == y[..4] {
        assert ka == kb by {
          forall i | 0 <= i < 8 ensures ka[i] == kb[i] {
            if i < 4 {
              assert ka[i] == ka[..4][i];
              assert kb[i] == kb[..4][i];
            }
          }
        }
      }
    case _ =>
  }

  /** The lower 64 bits of an IPv6 address never influence its key. */
  lemma LowerBitsIgnored(prefix: seq<u16>, low1: seq<u16>, low2: seq<u16>)
    requires |prefix| == 4 && |low1| == 4 && |low2| == 4
    ensures NormaliseIpAddr(V6(prefix + low1)) == NormaliseIpAddr(V6(prefix + low2))
  {
    SameKeyIffSameClient(V6(prefix + low1), V6(prefix + low2));
    assert (prefix + low1)[..4] == prefix == (prefix + low2)[..4];
  }

  /** The unit test `truncates_ipv6`: 2001:470:6bd2::41:1 becomes 2001:470:6bd2::. */
  lemma TruncatesIpv6()
    ensures NormaliseIpAddr(V6([0x2001, 0x470, 0x6bd2, 0, 0, 0, 0x41, 0x1]))
         == V6([0x2001, 0x470, 0x6bd2, 0, 0, 0, 0, 0])
  {
  }

  /**
   * `::ffff:a.b.c.d`: the IPv4-mapped IPv6 address under which a socket
   * bound to the IPv6 wildcard `[::]` reports an IPv4 peer.
   */
  function MappedV4(o: Ipv4Octets): IpAddr {
    var hi: int, lo: int := o[0] as int * 0x100 + o[1] as int, o[2] as int * 0x100 + o[3] as int;
    V6([0, 0, 0, 0, 0, 0xFFFF, hi, lo])
  }

  /**
   * Normalisation does not recognise mapped addresses: every IPv4 client
   * reported as `::ffff:a.b.c.d` gets the key `::`, the same key as every
   * other mapped client and as the loopback `::1`.
   */
  lemma MappedV4ClientsShareKey(a: Ipv4Octets, b: Ipv4Octets)
    ensures NormaliseIpAddr(MappedV4(a)) == NormaliseIpAddr(MappedV4(b))
    ensures NormaliseIpAddr(MappedV4(a)) == NormaliseIpAddr(V6([0, 0, 0, 0, 0, 0, 0, 1]))
    ensures NormaliseIpAddr(MappedV4(a)) == V6([0, 0, 0, 0, 0, 0, 0, 0])
  {
  }

  /** One question put to the keyed limiter: a key and the instant of asking. */
  datatype Query = Query(key: IpAddr, now: nat)

  /** The keyed limiter's decision, given the earlier queries and the new one. */
  type Governor = (seq<Query>, Query) -> bool

  /** `ClientRateLimiter`: the keyed limiter and the queries it has been asked so far. */
  class ClientRateLimiter {
    const governor: Governor
    var consulted: seq<Query>

    /** The limiter has only ever been asked about normalised keys. */
    ghost predicate Valid()
      reads this
    {
      forall i :: 0 <= i < |consulted| ==> IsNormalised(consulted[i].key)
    }

    /** `ClientRateLimiter::new`: a limiter that has seen nothing. */
    constructor (governor: Governor)
      ensures Valid()
      ensures this.governor == governor && consulted == []
    {
      this.governor := governor;
      consulted := [];
    }

    /**
     * `check_key`: the limiter is asked about the normalised key, never the
     * raw address, and its answer is returned.
     */
    method CheckKey(key: IpAddr, now: nat) returns (admitted: bool)
      requires Valid()
      modifies this
      ensures Valid()
      ensures consulted == old(consulted) + [Query(NormaliseIpAddr(key), now)]
      ensures admitted == governor(old(consulted), Query(NormaliseIpAddr(key), now))
    {
      NormaliseIdempotent(key);
      var q := Query(NormaliseIpAddr(key), now);
      admitted := governor(consulted, q);
      consulted := consulted + [q];
    }
  }

  /**
   * Two addresses of the same /64 get the same verdict from a limiter in the
   * same state: rotating the lower 64 bits does not get a client a new bucket.
   */
  lemma SameClientSameVerdict(governor: Governor, history: seq<Query>, a: IpAddr, b: IpAddr, now: nat)
    requires SameClient(a, b)
    ensures governor(history, Query(NormaliseIpAddr(a), now))
         == governor(history, Query(NormaliseIpAddr(b), now))
  {
    SameKeyIffSameClient(a, b);
  }
}
