/** The limits on a package's dependency list that both parsers check while they read it. */
module Dependencies {
  import Text

  const MAX_DEPENDENCIES := 256
  const MAX_DEPENDENCY_BYTES := 65536

  function Bytes(lines: seq<string>): nat {
    if |lines| == 0 then 0 else Bytes(lines[..|lines| - 1]) + Text.Size(lines[|lines| - 1])
  }

  datatype Verdict = Within | TooMany | TooLong

  /** What a reader that checks the limits at each dependency says of the whole list: the
      bytes are counted only up to the dependency that is one too many. */
  function Judge(depends: seq<string>): (v: Verdict)
    ensures v == Within <==> |depends| <= 256 && Bytes(depends) <= 65536
  {
    var read := if |depends| <= MAX_DEPENDENCIES then depends else depends[..MAX_DEPENDENCIES];
    BytesOfPrefix(depends, |read|);
    assert depends[..|depends|] == depends;
    if Bytes(read) > MAX_DEPENDENCY_BYTES then TooLong
    else if |depends| > MAX_DEPENDENCIES then TooMany
    else Within
  }

  lemma {:induction false} BytesOfPrefix(lines: seq<string>, n: nat)
    requires n <= |lines|
    ensures Bytes(lines[..n]) <= Bytes(lines)
  {
    if n == |lines| {
      assert lines[..n] == lines;
    } else {
      BytesOfPrefix(lines[..|lines| - 1], n);
      assert lines[..|lines| - 1][..n] == lines[..n];
    }
  }

  lemma BytesNext(lines: seq<string>, next: string)
    ensures Bytes(lines + [next]) == Bytes(lines) + Text.Size(next)
  {
    assert (lines + [next])[..|lines|] == lines;
  }

  /** One more dependency decides as the running checks do, count before bytes. */
  lemma JudgeNext(depends: seq<string>, next: string)
    requires Judge(depends) == Within
    ensures |depends| >= MAX_DEPENDENCIES ==> Judge(depends + [next]) == TooMany
    ensures |depends| < MAX_DEPENDENCIES && Bytes(depends) + Text.Size(next) > MAX_DEPENDENCY_BYTES ==>
              Judge(depends + [next]) == TooLong
    ensures |depends| < MAX_DEPENDENCIES && Bytes(depends) + Text.Size(next) <= MAX_DEPENDENCY_BYTES ==>
              Judge(depends + [next]) == Within
  {
    BytesNext(depends, next);
    hide Bytes;
    assert |depends| >= MAX_DEPENDENCIES ==> (depends + [next])[..MAX_DEPENDENCIES] == depends;
  }

  /** Once the limits are broken, what follows cannot change the verdict. */
  lemma JudgeSettled(depends: seq<string>, more: seq<string>)
    requires Judge(depends) != Within
    ensures Judge(depends + more) == Judge(depends)
  {
    var all := depends + more;
    if |depends| > MAX_DEPENDENCIES {
      assert all[..MAX_DEPENDENCIES] == depends[..MAX_DEPENDENCIES];
    } else {
      var n := if |all| <= MAX_DEPENDENCIES then |all| else MAX_DEPENDENCIES;
      assert all[..n][..|depends|] == depends;
      assert all[..|all|] == all;
      BytesOfPrefix(all[..n], |depends|);
    }
  }
}
