/** The administrator's password record (internal/auth/password.go). Argon2id is a parameter: any
    function of password, salt, iterations, memory, parallelism and key length that returns as many
    bytes as it is asked for. */
module Password {
  import opened Prelude
  import opened Text
  import opened Base64

  datatype PasswordHash = PasswordHash(memory: nat, iterations: nat, parallelism: nat, salt: seq<Byte>, hash: seq<Byte>)

  type Kdf = (seq<Byte>, seq<Byte>, nat, nat, nat, nat) -> seq<Byte>

  ghost predicate KeepsLength(kdf: Kdf) {
    forall password, salt, iterations, memory, parallelism, length ::
      |kdf(password, salt, iterations, memory, parallelism, length)| == length
  }

  const DEFAULT_MEMORY: nat := 64 * 1024
  const DEFAULT_ITERATIONS: nat := 3
  const DEFAULT_PARALLELISM: nat := 2
  const DEFAULT_KEY_LENGTH: nat := 32
  const DEFAULT_SALT_LENGTH: nat := 16

  const TWO_32: nat := 0x1_0000_0000

  /** The records `Parse` lets through. */
  predicate Acceptable(p: PasswordHash) {
    8192 <= p.memory < TWO_32 && 1 <= p.iterations < TWO_32 && 1 <= p.parallelism < 256 && |p.salt| >= 8 &&
    |p.hash| >= 16
  }

  // ---------------------------------------------------------------- printing

  function PrintParams(p: PasswordHash): string {
    "m=" + Itoa(p.memory) + ",t=" + Itoa(p.iterations) + ",p=" + Itoa(p.parallelism)
  }

  function Print(p: PasswordHash): string {
    "$argon2id$v=19$" + PrintParams(p) + "$" + Encode(p.salt) + "$" + Encode(p.hash)
  }

  function DefaultRecord(kdf: Kdf, password: seq<Byte>, salt: seq<Byte>): PasswordHash {
    PasswordHash(DEFAULT_MEMORY, DEFAULT_ITERATIONS, DEFAULT_PARALLELISM, salt,
                 kdf(password, salt, DEFAULT_ITERATIONS, DEFAULT_MEMORY, DEFAULT_PARALLELISM, DEFAULT_KEY_LENGTH))
  }

  lemma DefaultNumbers()
    ensures Itoa(65536) == "65536" && Itoa(3) == "3" && Itoa(2) == "2"
  {
    assert Itoa(65) == "65" by { assert Itoa(6) == "6"; }
    assert Itoa(6553) == "6553" by { assert Itoa(655) == "655"; }
  }

  lemma DefaultText(kdf: Kdf, password: seq<Byte>, salt: Option<seq<Byte>>)
    ensures salt.Some? ==>
              Print(DefaultRecord(kdf, password, salt.value)) ==
              "$argon2id$v=19$m=65536,t=3,p=2$" + Encode(salt.value) + "$" +
              Encode(kdf(password, salt.value, 3, 65536, 2, 32))
  {
    hide Encode, Itoa;
    DefaultNumbers();
    if salt.Some? {
      var p := DefaultRecord(kdf, password, salt.value);
      assert PrintParams(p) == "m=65536,t=3,p=2";
      assert "$argon2id$v=19$" + "m=65536,t=3,p=2" + "$" == "$argon2id$v=19$m=65536,t=3,p=2$";
    }
  }

  /** `HashPassword`; salt: the random bytes, when they could be read. */
  method HashPassword(kdf: Kdf, password: seq<Byte>, salt: Option<seq<Byte>>) returns (record: Option<string>)
    requires salt.Some? ==> |salt.value| == DEFAULT_SALT_LENGTH
    ensures record.Some? <==> 12 <= |password| <= 1024 && salt.Some?
    ensures record.Some? ==> record.value == Print(DefaultRecord(kdf, password, salt.value))
    ensures record.Some? ==>
              record.value == "$argon2id$v=19$m=65536,t=3,p=2$" + Encode(salt.value) + "$" +
                              Encode(kdf(password, salt.value, 3, 65536, 2, 32))
  {
    DefaultText(kdf, password, salt);
    if |password| < 12 || |password| > 1024 || salt.None? { return None; }
    var hash := kdf(password, salt.value, DEFAULT_ITERATIONS, DEFAULT_MEMORY, DEFAULT_PARALLELISM, DEFAULT_KEY_LENGTH);
    var p := PasswordHash(DEFAULT_MEMORY, DEFAULT_ITERATIONS, DEFAULT_PARALLELISM, salt.value, hash);
    return Some(Print(p));
  }

  // ---------------------------------------------------------------- parsing

  /** `strings.Cut`: where the separator first stands, or the length. */
  function IndexOf(s: string, sep: char): (i: nat)
    ensures i <= |s|
  {
    if s == "" || s[0] == sep then 0 else 1 + IndexOf(s[1..], sep)
  }

  lemma {:induction false} IndexOfFirst(a: string, sep: char, b: string)
    requires sep !in a
    ensures IndexOf(a + [sep] + b, sep) == |a|
  {
    if a == "" {
      assert a + [sep] + b == [sep] + b;
    } else {
      assert (a + [sep] + b)[1..] == a[1..] + [sep] + b;
      IndexOfFirst(a[1..], sep, b);
    }
  }

  /** The parameters as the loop reads them: a later item of the same key wins, and an item without
      `=` is an error. */
  function Params(items: seq<string>): Option<map<string, string>> {
    if items == [] then Some(map[])
    else
      var before, item := Params(items[..|items| - 1]), items[|items| - 1];
      var i := IndexOf(item, '=');
      if before.None? || i == |item| then None else Some(before.value[item[..i] := item[i + 1..]])
  }

  function Lookup(params: map<string, string>, key: string): string {
    if key in params then params[key] else ""
  }

  function Parsed(encoded: string): Option<PasswordHash> {
    var parts := Split(encoded, '$');
    if |parts| != 6 || parts[1] != "argon2id" || parts[2] != "v=19" then None
    else
      var params := Params(Split(parts[3], ','));
      if params.None? then None
      else
        var memory := ParseUint(Lookup(params.value, "m"), TWO_32);
        var iterations := ParseUint(Lookup(params.value, "t"), TWO_32);
        var parallelism := ParseUint(Lookup(params.value, "p"), 256);
        var salt, hash := Decode(parts[4]), Decode(parts[5]);
        if memory.None? || iterations.None? || parallelism.None? || salt.None? || hash.None? then None
        else
          var p := PasswordHash(memory.value, iterations.value, parallelism.value, salt.value, hash.value);
          if Acceptable(p) then Some(p) else None
  }

  method Parse(encoded: string) returns (r: Option<PasswordHash>)
    ensures r == Parsed(encoded)
  {
    var parts := Split(encoded, '$');
    if |parts| != 6 || parts[1] != "argon2id" || parts[2] != "v=19" { return None; }
    var params: map<string, string> := map[];
    var items := Split(parts[3], ',');
    for i := 0 to |items|
      invariant Params(items[..i]) == Some(params)
    {
      assert items[..i + 1][..i] == items[..i];
      var at := IndexOf(items[i], '=');
      if at == |items[i]| {
        Poisoned(items, i + 1, |items|);
        assert items[..|items|] == items;
        return None;
      }
      params := params[items[i][..at] := items[i][at + 1..]];
    }
    assert items[..|items|] == items;
    var memory := ParseUint(Lookup(params, "m"), TWO_32);
    var iterations := ParseUint(Lookup(params, "t"), TWO_32);
    var parallelism := ParseUint(Lookup(params, "p"), 256);
    var salt := Decode(parts[4]);
    var hash := Decode(parts[5]);
    if memory.None? || iterations.None? || parallelism.None? || salt.None? || hash.None? ||
       memory.value < 8192 || iterations.value < 1 || parallelism.value < 1 || |salt.value| < 8 || |hash.value| < 16
    {
      return None;
    }
    return Some(PasswordHash(memory.value, iterations.value, parallelism.value, salt.value, hash.value));
  }

  /** What a text must have to be read as a record. */
  lemma ParsedNeeds(encoded: string)
    requires Parsed(encoded).Some?
    ensures var parts := Split(encoded, '$'); |parts| == 6 && parts[1] == "argon2id" && parts[2] == "v=19"
    ensures var p := Parsed(encoded).value;
            8192 <= p.memory < 0x1_0000_0000 && 1 <= p.iterations < 0x1_0000_0000 && 1 <= p.parallelism < 256 &&
            |p.salt| >= 8 && |p.hash| >= 16 &&
            Some(p.salt) == Decode(Split(encoded, '$')[4]) && Some(p.hash) == Decode(Split(encoded, '$')[5])
  {
    hide Split, Params, ParseUint, Decode;
  }

  /** A later parameter of the same key wins, and an item without `=` spoils the text. */
  lemma LaterWins(items: seq<string>, key: string, value: string)
    requires '=' !in key
    ensures Params(items + [key + "=" + value]) ==
            if Params(items).None? then None else Some(Params(items).value[key := value])
    ensures Params(items + [key]) == None
  {
    hide IndexOf;
    var with, without := items + [key + "=" + value], items + [key];
    assert with[..|items|] == items && without[..|items|] == items;
    var item := key + "=" + value;
    IndexOfFirst(key, '=', value);
    assert item[..|key|] == key && item[|key| + 1..] == value;
    NoIndex(key, '=');
  }

  lemma {:induction false} NoIndex(s: string, sep: char)
    requires sep !in s
    ensures IndexOf(s, sep) == |s|
  {
    if s != "" { NoIndex(s[1..], sep); }
  }

  lemma {:induction false} Poisoned(items: seq<string>, i: nat, j: nat)
    requires i <= j <= |items| && Params(items[..i]).None?
    ensures Params(items[..j]).None?
  {
    if i < j {
      Poisoned(items, i, j - 1);
      assert items[..j][..j - 1] == items[..j - 1];
    }
  }

  // ---------------------------------------------------------------- the round trip

  lemma LettersOnly(data: seq<Byte>, c: char)
    requires !IsLetter(c)
    ensures c !in Encode(data)
  {
    EncodeLetters(data);
  }

  lemma CutItem(key: char, n: nat)
    requires key != '='
    ensures var item := [key] + "=" + Itoa(n); IndexOf(item, '=') == 1 && item[..1] == [key] && item[2..] == Itoa(n)
  {
    IndexOfFirst([key], '=', Itoa(n));
  }

  lemma ParamsOfPrint(p: PasswordHash)
    ensures Params(Split(PrintParams(p), ',')) ==
            Some(map["m" := Itoa(p.memory), "t" := Itoa(p.iterations), "p" := Itoa(p.parallelism)])
  {
    hide Itoa;
    var m, t, q := "m" + "=" + Itoa(p.memory), "t" + "=" + Itoa(p.iterations), "p" + "=" + Itoa(p.parallelism);
    DigitsOnly(p.memory, ',');
    DigitsOnly(p.iterations, ',');
    DigitsOnly(p.parallelism, ',');
    assert PrintParams(p) == m + [','] + (t + [','] + q);
    SplitFirst(m, ',', t + [','] + q);
    SplitFirst(t, ',', q);
    SplitLast(q, ',');
    var items := [m, t, q];
    assert Split(PrintParams(p), ',') == items;
    CutItem('m', p.memory);
    CutItem('t', p.iterations);
    CutItem('p', p.parallelism);
    assert items[..2][..1] == [m] && items[..2] == [m, t];
    assert Params([]) == Some(map[]) && [m][..0] == [];
    assert Params([m]) == Some(map["m" := Itoa(p.memory)]);
    assert Params([m, t]) == Some(map["m" := Itoa(p.memory), "t" := Itoa(p.iterations)]);
  }

  lemma SplitSix(a: string, b: string, c: string, d: string, e: string, f: string, sep: char)
    requires sep !in a && sep !in b && sep !in c && sep !in d && sep !in e && sep !in f
    ensures Split(a + ([sep] + (b + ([sep] + (c + ([sep] + (d + ([sep] + (e + ([sep] + f))))))))), sep) ==
            [a, b, c, d, e, f]
  {
    hide Split;
    var fifth := e + ([sep] + f);
    var fourth := d + ([sep] + fifth);
    var third := c + ([sep] + fourth);
    var second := b + ([sep] + third);
    assert e + [sep] + f == fifth;
    assert d + [sep] + fifth == fourth;
    assert c + [sep] + fourth == third;
    assert b + [sep] + third == second;
    assert a + [sep] + second == a + ([sep] + second);
    SplitLast(f, sep);
    SplitFirst(e, sep, f);
    SplitFirst(d, sep, fifth);
    SplitFirst(c, sep, fourth);
    SplitFirst(b, sep, third);
    SplitFirst(a, sep, second);
  }

  lemma PrintedParamsPlain(p: PasswordHash)
    ensures '$' !in PrintParams(p)
  {
    DigitsOnly(p.memory, '$');
    DigitsOnly(p.iterations, '$');
    DigitsOnly(p.parallelism, '$');
  }

  lemma PartsOfPrint(p: PasswordHash)
    ensures Split(Print(p), '$') == ["", "argon2id", "v=19", PrintParams(p), Encode(p.salt), Encode(p.hash)]
  {
    hide Encode, Split, PrintParams, IsLetter;
    PrintedParamsPlain(p);
    assert !IsLetter('$') by { DollarIsNoLetter(); }
    LettersOnly(p.salt, '$');
    LettersOnly(p.hash, '$');
    SplitSix("", "argon2id", "v=19", PrintParams(p), Encode(p.salt), Encode(p.hash), '$');
    var tail := PrintParams(p) + (['$'] + (Encode(p.salt) + (['$'] + Encode(p.hash))));
    assert "$argon2id$v=19$" + tail == "" + (['$'] + ("argon2id" + (['$'] + ("v=19" + (['$'] + tail)))));
    assert Print(p) == "$argon2id$v=19$" + tail;
  }

  lemma DollarIsNoLetter()
    ensures !IsLetter('$')
  {
  }

  lemma ReadBack(n: nat, limit: nat)
    ensures ParseUint(Itoa(n), limit) == if n < limit then Some(n) else None
  {
    DigitsValueItoa(n);
  }

  /** A printed record is read back exactly as it was if its parameters are acceptable, and refused
      otherwise. */
  lemma ParsePrint(p: PasswordHash)
    ensures Parsed(Print(p)) ==
            if 8192 <= p.memory < 0x1_0000_0000 && 1 <= p.iterations < 0x1_0000_0000 && 1 <= p.parallelism < 256 &&
               |p.salt| >= 8 && |p.hash| >= 16
            then Some(p) else None
  {
    hide Print, PrintParams, Encode, Decode, Split, Params, ParseUint, Itoa;
    PartsOfPrint(p);
    ParamsOfPrint(p);
    ReadBack(p.memory, TWO_32);
    ReadBack(p.iterations, TWO_32);
    ReadBack(p.parallelism, 256);
    RoundTrip(p.salt);
    RoundTrip(p.hash);
  }

  // ---------------------------------------------------------------- verification

  /** The password hashes to the record's hash. */
  predicate Matches(kdf: Kdf, p: PasswordHash, password: seq<Byte>) {
    kdf(password, p.salt, p.iterations, p.memory, p.parallelism, |p.hash|) == p.hash
  }

  method VerifyPassword(kdf: Kdf, encoded: string, password: seq<Byte>) returns (ok: bool)
    ensures ok <==> password != [] && Parsed(encoded).Some? && Matches(kdf, Parsed(encoded).value, password)
    ensures ok <==>
              password != [] && Parsed(encoded).Some? &&
              var p := Parsed(encoded).value;
              p.hash == kdf(password, p.salt, p.iterations, p.memory, p.parallelism, |p.hash|)
  {
    var parsed := Parse(encoded);
    if parsed.None? || |password| == 0 { return false; }
    var actual := kdf(password, parsed.value.salt, parsed.value.iterations, parsed.value.memory,
                      parsed.value.parallelism, |parsed.value.hash|);
    ok := actual == parsed.value.hash;
  }

  /** A record accepts the password it was made from, and any other exactly when it hashes to the
      same bytes. */
  method SetThenVerify(kdf: Kdf, password: seq<Byte>, salt: seq<Byte>, attempt: seq<Byte>) returns (made: bool,
                       accepted: bool)
    requires |salt| == DEFAULT_SALT_LENGTH && KeepsLength(kdf)
    ensures made <==> 12 <= |password| <= 1024
    ensures made && attempt == password ==> accepted
    ensures made ==> (accepted <==>
                        attempt != [] && kdf(attempt, salt, 3, 65536, 2, 32) == kdf(password, salt, 3, 65536, 2, 32))
  {
    hide Print, Parsed;
    var record := HashPassword(kdf, password, Some(salt));
    if record.None? { return false, false; }
    made := true;
    accepted := VerifyPassword(kdf, record.value, attempt);
    ParsePrint(DefaultRecord(kdf, password, salt));
  }
}
