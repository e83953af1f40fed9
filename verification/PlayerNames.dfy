/** Two services look at the same player name: the realtime service counts what a reader would
    call characters (grapheme clusters), the judge counts bytes. How a text splits into clusters
    is a parameter here. */
module PlayerNames {
  import opened Options
  import opened Judge

  const NAME_MIN := 1
  const NAME_MAX := 12

  function Concat(clusters: seq<string>): string {
    if clusters == [] then "" else clusters[0] + Concat(clusters[1..])
  }

  /** validate_name, after String.trim. */
  predicate Admitted(clusters: seq<string>) {
    NAME_MIN <= |clusters| <= NAME_MAX
  }

  /** A text that does not start with a space, as none does after String.trim, split into
      clusters, none of them empty. */
  predicate Trimmed(clusters: seq<string>) {
    (forall i | 0 <= i < |clusters| :: clusters[i] != "") && !IsSpace(First(clusters))
  }

  function First(clusters: seq<string>): char {
    if clusters == [] || clusters[0] == "" then 'x' else clusters[0][0]
  }

  /** The rest of the request is in order. */
  predicate RestOk(req: Request, now: int) {
    RoomOk(req.room) && -30 * SECOND <= now - req.timestamp <= 300 * SECOND
  }

  /** An admitted name is refused by the judge exactly if it takes more than 32 bytes. */
  lemma AdmittedButRefusedExactlyWhen(clusters: seq<string>, req: Request, now: int)
    requires Trimmed(clusters) && Admitted(clusters) && req.player == Concat(clusters) && RestOk(req, now)
    ensures Check(req, now).Some? <==> ByteLen(req.player) > 32
    ensures Check(req, now).Some? <==> Check(req, now) == Some(LongPlayer)
  {
    AcceptsExactlyWhen(req, now);
    assert req.player[0] == First(clusters);
  }

  lemma {:induction false} ByteLenConcat(a: string, b: string)
    ensures ByteLen(a + b) == ByteLen(a) + ByteLen(b)
  {
    if a == "" {
      assert a + b == b;
    } else {
      assert (a + b)[1..] == a[1..] + b;
      ByteLenConcat(a[1..], b);
    }
  }

  lemma {:induction false} ByteLenOfSame(s: string, c: char)
    requires forall i | 0 <= i < |s| :: s[i] == c
    ensures ByteLen(s) == Utf8Len(c) * |s|
  {
    if s != "" {
      ByteLenOfSame(s[1..], c);
    }
  }

  function Repeat<T>(x: T, n: nat): (s: seq<T>)
    ensures |s| == n && forall i | 0 <= i < n :: s[i] == x
  {
    seq(n, _ => x)
  }

  lemma NoBytes()
    ensures ByteLen("") == 0
  {
  }

  lemma {:induction false} BytesOfRepeated(cluster: string, n: nat)
    ensures ByteLen(Concat(Repeat(cluster, n))) == n * ByteLen(cluster)
  {
    hide ByteLen;
    if n == 0 {
      NoBytes();
    } else {
      assert Repeat(cluster, n)[1..] == Repeat(cluster, n - 1);
      BytesOfRepeated(cluster, n - 1);
      ByteLenConcat(cluster, Concat(Repeat(cluster, n - 1)));
      OneMore(n, ByteLen(cluster));
    }
  }

  lemma OneMore(n: nat, k: nat)
    requires n > 0
    ensures k + (n - 1) * k == n * k
  {
  }

  /** A name of n times the kana 'a', one cluster of three bytes each: admitted up to twelve,
      accepted by the judge up to ten. */
  lemma KanaNames(n: nat, req: Request, now: int)
    requires 1 <= n && req.player == Concat(Repeat("\U{3042}", n)) && RestOk(req, now)
    ensures Trimmed(Repeat("\U{3042}", n))
    ensures Admitted(Repeat("\U{3042}", n)) <==> n <= 12
    ensures Check(req, now).None? <==> n <= 10
  {
    BytesOfRepeated("\U{3042}", n);
    ByteLenOfSame("\U{3042}", '\U{3042}');
    AcceptsExactlyWhen(req, now);
    assert req.player[0] == '\U{3042}';
  }

  /** One letter under sixteen accents: one cluster, 33 bytes. */
  function Accented(): string {
    "e" + Repeat('\U{0301}', 16)
  }

  /** So no number of clusters is safe: every admitted length has a name the judge refuses. */
  lemma NoLengthIsSafe(n: nat, req: Request, now: int)
    requires NAME_MIN <= n <= NAME_MAX && req.player == Concat(Repeat(Accented(), n)) && RestOk(req, now)
    ensures Trimmed(Repeat(Accented(), n)) && Admitted(Repeat(Accented(), n))
    ensures Check(req, now) == Some(LongPlayer)
  {
    hide ByteLen, Check;
    var name := Repeat(Accented(), n);
    ByteLenOfSame("e", 'e');
    ByteLenOfSame(Repeat('\U{0301}', 16), '\U{0301}');
    ByteLenConcat("e", Repeat('\U{0301}', 16));
    BytesOfRepeated(Accented(), n);
    assert First(name) == 'e';
    AdmittedButRefusedExactlyWhen(name, req, now);
  }
}
