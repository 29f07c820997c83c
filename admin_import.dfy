/**
 * scripts/import-admins.js: `readCredentials`, which falls back to an empty
 * list, and `importCredentials`, which appends each new credential whose
 * lower-cased email is not yet present, with its password hashed. The
 * SHA-256 hash and the `new Date()` timestamps are parameters: `hash` maps a
 * password to its digest, `clock(i)` is the timestamp taken for the `i`-th
 * credential of the batch. `existing.map(c => c.email.toLowerCase())` runs
 * outside any `try`: a parsed value that is not an array, or a record whose
 * email is not a string, ends the import with a TypeError and nothing is
 * written.
 */
module AdminImport {
  import opened Wrappers
  import opened Text
  import opened Catalog

  /** A credential to import. */
  datatype Credential = Credential(email: string, password: string)

  /**
   * A stored record of data/admin-credentials.json. An element that is not an
   * object has no `email` property and is read as `Missing`.
   */
  datatype StoredCredential = StoredCredential(email: Field, password: string, createdAt: string)

  /** What `JSON.parse` gave: an array of records, or any other JSON value (null, an object, a number, a string, a boolean). */
  datatype StoredJson = Records(records: seq<StoredCredential>) | NotArray

  /** What `importCredentials` reports when it gets to `writeCredentials`. */
  datatype Import = Import(written: seq<StoredCredential>, added: nat, skipped: nat)

  /** `readCredentials`: the parsed value, or `[]` when the file is missing or unparsable. */
  function ReadCredentials(file: JsonFile<StoredJson>): (r: StoredJson)
    ensures r.NotArray? <==> file == Parsed(NotArray)
    ensures !file.Parsed? ==> r == Records([])
  {
    if file.Parsed? then file.contents else Records([])
  }

  /** Every record has a string email, so `c.email.toLowerCase()` succeeds on each. */
  predicate EmailsReadable(records: seq<StoredCredential>) {
    forall r :: r in records ==> r.email.Str?
  }

  /** The lower-cased email of a record whose email is a string. */
  function EmailKey(r: StoredCredential): string
    requires r.email.Str?
  {
    Lower(r.email.text)
  }

  /** The lower-cased emails of the stored credentials. */
  function EmailsOf(records: seq<StoredCredential>): set<string>
    requires EmailsReadable(records)
  {
    set r | r in records :: EmailKey(r)
  }

  /** Appending a record adds its lower-cased email. */
  lemma EmailsOfAppend(records: seq<StoredCredential>, r: StoredCredential)
    requires EmailsReadable(records) && r.email.Str?
    ensures EmailsReadable(records + [r])
    ensures EmailsOf(records + [r]) == EmailsOf(records) + {EmailKey(r)}
  {
    assert forall x :: x in records + [r] <==> x in records || x == r;
  }

  /** The record pushed for the `i`-th credential: the email as given, the hashed password. */
  function StoredOf(c: Credential, i: nat, hash: string -> string, clock: nat -> string): StoredCredential {
    StoredCredential(Str(c.email), hash(c.password), clock(i))
  }

  /**
   * The list after the credentials `creds`, in order: each one is appended
   * unless its lower-cased email is already the lower-cased email of a record
   * of the list as it stands (earlier imports of the batch included).
   */
  function Imported(existing: seq<StoredCredential>, creds: seq<Credential>, hash: string -> string, clock: nat -> string): (r: seq<StoredCredential>)
    requires EmailsReadable(existing)
    ensures EmailsReadable(r)
  {
    if creds == [] then existing
    else
      var prev := Imported(existing, creds[..|creds| - 1], hash, clock);
      var c := creds[|creds| - 1];
      if Lower(c.email) in EmailsOf(prev) then prev else prev + [StoredOf(c, |creds| - 1, hash, clock)]
  }

  /**
   * `importCredentials`: a TypeError when the value read is not an array or
   * one of its records has no string email; otherwise the list written and
   * the numbers added and skipped. The set of known emails is kept equal to
   * the lower-cased emails of the growing list.
   */
  method ImportCredentials(file: JsonFile<StoredJson>, newCredentials: seq<Credential>, hash: string -> string, clock: nat -> string)
    returns (outcome: Result<Import>)
    ensures outcome.Ok? <==> ReadCredentials(file).Records? && EmailsReadable(ReadCredentials(file).records)
    ensures outcome.Ok? ==>
      var stored := ReadCredentials(file).records;
      && outcome.value.written == Imported(stored, newCredentials, hash, clock)
      && outcome.value.added + outcome.value.skipped == |newCredentials|
      && |outcome.value.written| == |stored| + outcome.value.added
  {
    var read := ReadCredentials(file);
    if !read.Records? {
      return Crash("TypeError: existing.map is not a function");
    }
    var existing := read.records;
    var existingEmails := {};
    var k := 0;
    while k < |existing|
      invariant 0 <= k <= |existing|
      invariant EmailsReadable(existing[..k])
      invariant existingEmails == EmailsOf(existing[..k])
    {
      if !existing[k].email.Str? {
        assert !EmailsReadable(existing);
        return Crash("TypeError: cannot read properties of c.email");
      }
      assert existing[..k + 1] == existing[..k] + [existing[k]];
      EmailsOfAppend(existing[..k], existing[k]);
      existingEmails := existingEmails + {EmailKey(existing[k])};
      k := k + 1;
    }
    assert existing[..k] == existing;
    var added, skipped := 0, 0;
    var i := 0;
    while i < |newCredentials|
      invariant 0 <= i <= |newCredentials|
      invariant EmailsReadable(existing)
      invariant existing == Imported(read.records, newCredentials[..i], hash, clock)
      invariant existingEmails == EmailsOf(existing)
      invariant added + skipped == i
      invariant |existing| == |read.records| + added
    {
      var cred := newCredentials[i];
      assert newCredentials[..i + 1][..i] == newCredentials[..i];
      var email := Lower(cred.email);
      if email in existingEmails {
        skipped := skipped + 1;
      } else {
        var record := StoredOf(cred, i, hash, clock);
        EmailsOfAppend(existing, record);
        existing := existing + [record];
        existingEmails := existingEmails + {email};
        added := added + 1;
      }
      i := i + 1;
    }
    assert newCredentials[..i] == newCredentials;
    return Ok(Import(existing, added, skipped));
  }

  /** The existing records stay in place and in order: the result extends them. */
  lemma {:induction false} ImportedExtends(existing: seq<StoredCredential>, creds: seq<Credential>, hash: string -> string, clock: nat -> string)
    requires EmailsReadable(existing)
    ensures existing <= Imported(existing, creds, hash, clock)
    ensures |Imported(existing, creds, hash, clock)| <= |existing| + |creds|
  {
    if creds != [] {
      ImportedExtends(existing, creds[..|creds| - 1], hash, clock);
    }
  }

  /** The lower-cased emails are pairwise distinct. */
  predicate EmailsDistinct(records: seq<StoredCredential>)
    requires EmailsReadable(records)
  {
    forall i, j :: 0 <= i < j < |records| ==> EmailKey(records[i]) != EmailKey(records[j])
  }

  /** Importing keeps the lower-cased emails pairwise distinct. */
  lemma {:induction false} ImportedKeepsDistinct(existing: seq<StoredCredential>, creds: seq<Credential>, hash: string -> string, clock: nat -> string)
    requires EmailsReadable(existing) && EmailsDistinct(existing)
    ensures EmailsDistinct(Imported(existing, creds, hash, clock))
  {
    if creds != [] {
      var prev := Imported(existing, creds[..|creds| - 1], hash, clock);
      var c := creds[|creds| - 1];
      ImportedKeepsDistinct(existing, creds[..|creds| - 1], hash, clock);
      if Lower(c.email) !in EmailsOf(prev) {
        var next := prev + [StoredOf(c, |creds| - 1, hash, clock)];
        forall i, j | 0 <= i < j < |next| ensures EmailKey(next[i]) != EmailKey(next[j]) {
          if j == |prev| {
            assert next[i] == prev[i] && prev[i] in prev;
          }
        }
      }
    }
  }

  /**
   * Every appended record comes from a credential of the batch: its email
   * keeps the given casing, its password is the hash of the given one, and
   * its lower-cased email was not among the existing records.
   */
  lemma {:induction false} ImportedSound(existing: seq<StoredCredential>, creds: seq<Credential>, hash: string -> string, clock: nat -> string)
    requires EmailsReadable(existing)
    ensures forall i :: |existing| <= i < |Imported(existing, creds, hash, clock)| ==>
      var r := Imported(existing, creds, hash, clock)[i];
      exists k :: 0 <= k < |creds| && r == StoredOf(creds[k], k, hash, clock)
                  && r.email == Str(creds[k].email) && r.password == hash(creds[k].password)
                  && Lower(creds[k].email) !in EmailsOf(existing)
  {
    ImportedExtends(existing, creds, hash, clock);
    if creds != [] {
      var init := creds[..|creds| - 1];
      var prev := Imported(existing, init, hash, clock);
      var c := creds[|creds| - 1];
      ImportedSound(existing, init, hash, clock);
      ImportedExtends(existing, init, hash, clock);
      var next := Imported(existing, creds, hash, clock);
      forall i | |existing| <= i < |next|
        ensures var r := next[i];
          exists k :: 0 <= k < |creds| && r == StoredOf(creds[k], k, hash, clock)
                  && r.email == Str(creds[k].email) && r.password == hash(creds[k].password)
                  && Lower(creds[k].email) !in EmailsOf(existing)
      {
        var r := next[i];
        if i < |prev| {
          assert r == prev[i];
          var k :| 0 <= k < |init| && r == StoredOf(init[k], k, hash, clock) && Lower(init[k].email) !in EmailsOf(existing);
          assert init[k] == creds[k];
        } else {
          assert next != prev && r == StoredOf(c, |creds| - 1, hash, clock);
          assert Lower(c.email) !in EmailsOf(prev);
          forall s | s in existing ensures EmailKey(s) != Lower(c.email) {
            assert s in prev[..|existing|];
            assert s in prev;
          }
        }
      }
    }
  }

  /** After the import every credential's lower-cased email is present, imported or skipped. */
  lemma {:induction false} ImportedComplete(existing: seq<StoredCredential>, creds: seq<Credential>, hash: string -> string, clock: nat -> string)
    requires EmailsReadable(existing)
    ensures EmailsOf(existing) <= EmailsOf(Imported(existing, creds, hash, clock))
    ensures forall c :: c in creds ==> Lower(c.email) in EmailsOf(Imported(existing, creds, hash, clock))
  {
    if creds != [] {
      var init := creds[..|creds| - 1];
      var prev := Imported(existing, init, hash, clock);
      var c := creds[|creds| - 1];
      ImportedComplete(existing, init, hash, clock);
      var next := Imported(existing, creds, hash, clock);
      assert prev <= next;
      assert forall r :: r in prev ==> r in next;
      assert EmailsOf(prev) <= EmailsOf(next);
      if Lower(c.email) !in EmailsOf(prev) {
        assert next[|next| - 1] in next;
        assert EmailKey(next[|next| - 1]) == Lower(c.email);
      }
      assert forall d :: d in creds ==> d in init || d == c;
    }
  }

  /** A credential whose email matches, ignoring case, one imported earlier in the same batch is skipped. */
  lemma SameBatchDuplicateSkipped(existing: seq<StoredCredential>, a: Credential, b: Credential, hash: string -> string, clock: nat -> string)
    requires EmailsReadable(existing)
    requires Lower(a.email) == Lower(b.email)
    ensures Imported(existing, [a, b], hash, clock) == Imported(existing, [a], hash, clock)
  {
    var one, two := [a], [a, b];
    assert two[..|two| - 1] == one && two[|two| - 1] == b;
    ImportedComplete(existing, one, hash, clock);
    assert a in one;
  }

  /** One stored record without a string email, wherever it sits, makes the whole import a TypeError. */
  lemma UnreadableEmailCrashes(before: seq<StoredCredential>, bad: StoredCredential, after: seq<StoredCredential>)
    requires !bad.email.Str?
    ensures !EmailsReadable(before + [bad] + after)
  {
    assert bad in before + [bad] + after;
  }
}
