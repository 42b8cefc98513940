/** The PATCH that csm_root_secret.py makes out of Vault's read, write and delete. */
module VaultSecrets {
  import opened Outcomes

  type Secret = map<string, string>

  /** Fields to set; None deletes the field. */
  type Update = map<string, Option<string>>

  type Secrets = map<string, Secret>

  datatype VaultError = NotFound | StillExists | StillMissing | Mismatch

  /** The secret, with an absent one read as the empty map. */
  function Read(secrets: Secrets, key: string): Secret {
    if key in secrets then secrets[key] else map[]
  }

  function Overlay(secret: Secret, update: Update): Secret {
    map f | f in secret.Keys + update.Keys && (f in update ==> update[f].Some?) ::
      if f in update then update[f].value else secret[f]
  }

  /** Vault does not hold empty secrets. */
  function Put(secrets: Secrets, key: string, secret: Secret): Secrets {
    if secret == map[] then secrets - {key} else secrets[key := secret]
  }

  function Updated(secrets: Secrets, key: string, update: Update): Secrets {
    Put(secrets, key, Overlay(Read(secrets, key), update))
  }

  /** Vault has the secret; the empty one is none. */
  predicate Holds(secrets: Secrets, key: string, secret: Secret) {
    if secret == map[] then key !in secrets else key in secrets && secrets[key] == secret
  }

  /** Field by field: the secret is there with just these fields, or it is not there and there are none. */
  lemma HoldsIff(secrets: Secrets, key: string, secret: Secret)
    ensures Holds(secrets, key, secret) <==>
              && (key in secrets <==> exists f :: f in secret)
              && (key in secrets ==>
                    && (forall f :: f in secret <==> f in secrets[key])
                    && forall f :: f in secret && f in secrets[key] ==> secrets[key][f] == secret[f])
  {
    assert secret != map[] <==> exists f :: f in secret;
  }

  ghost predicate NoneEmpty(secrets: Secrets) {
    forall key :: key in secrets ==> secrets[key] != map[]
  }

  /** Compares what was written with what was read back, field by field. */
  method CompareSecrets(written: Secret, read: Secret) returns (same: bool)
    ensures same <==> written == read
  {
    same := true;
    if written.Keys - read.Keys != {} {
      same := false;
    }
    if read.Keys - written.Keys != {} {
      same := false;
    }
    var common := read.Keys * written.Keys;
    var left := common;
    while left != {}
      invariant left <= common
      invariant same <==> written.Keys == read.Keys && forall f :: f in common - left ==> read[f] == written[f]
    {
      var f :| f in left;
      if read[f] != written[f] {
        same := false;
      }
      left := left - {f};
    }
  }

  class Vault {
    var secrets: Secrets
    /** The requests that have changed, or could have changed, a secret. */
    var writes: nat

    constructor ()
      ensures secrets == map[] && writes == 0 && NoneEmpty(secrets)
    {
      secrets := map[];
      writes := 0;
    }

    method GetSecret(key: string, mustExist: bool) returns (r: Result<Option<Secret>, VaultError>)
      ensures r == if key in secrets then Success(Some(secrets[key]))
                   else if mustExist then Failure(NotFound) else Success(None)
    {
      if key in secrets {
        return Success(Some(secrets[key]));
      }
      r := if mustExist then Failure(NotFound) else Success(None);
    }

    /** `after` is what the service holds once it has answered the request, whatever it made of it. */
    method DeleteSecret(key: string, verify: bool, after: Secrets) returns (r: Option<VaultError>)
      modifies this
      ensures secrets == after && writes == old(writes) + 1
      ensures r == if verify && key in after then Some(StillExists) else None
    {
      secrets := after;
      writes := writes + 1;
      if verify {
        var got := GetSecret(key, false);
        if got != Success(None) {
          return Some(StillExists);
        }
      }
      r := None;
    }

    /** Verification passes exactly when the service holds what it was sent. */
    method WriteSecret(key: string, data: Secret, verify: bool, after: Secrets) returns (r: Option<VaultError>)
      modifies this
      ensures secrets == after && writes == old(writes) + 1
      ensures r == None <==> !verify || Holds(after, key, data)
    {
      if data == map[] {
        r := DeleteSecret(key, verify, after);
        return;
      }
      secrets := after;
      writes := writes + 1;
      if verify {
        var got := GetSecret(key, false);
        if got == Success(None) {
          return Some(StillMissing);
        }
        var equal := CompareSecrets(data, got.value.value);
        if !equal {
          return Some(Mismatch);
        }
      }
      r := None;
    }

    /** An update is an overlay with deletion, and nothing is sent when it would change nothing. */
    method Update(key: string, update: Update, verify: bool, after: Secrets) returns (r: Option<VaultError>)
      requires NoneEmpty(secrets)
      modifies this
      ensures var wanted := Overlay(Read(old(secrets), key), update);
              var sent := wanted != Read(old(secrets), key);
              && writes == old(writes) + (if sent then 1 else 0)
              && secrets == (if sent then after else old(secrets))
              && (r == None <==> !sent || !verify || Holds(after, key, wanted))
      ensures verify && r == None ==> Holds(secrets, key, Overlay(Read(old(secrets), key), update))
      ensures after == Updated(old(secrets), key, update) ==> r == None && secrets == after && NoneEmpty(after)
    {
      if update == map[] {
        assert Overlay(Read(secrets, key), update) == Read(secrets, key);
        UnchangedIs(secrets, key, update);
        return None;
      }
      var got := GetSecret(key, false);
      if got.value.None? {
        var fields := SetFields(update);
        if fields == map[] {
          UnchangedIs(secrets, key, update);
          return None;
        }
        r := WriteSecret(key, fields, verify, after);
        return;
      }
      var secret := got.value.value;
      var updated := Patch(secret, update);
      if updated == secret {
        UnchangedIs(secrets, key, update);
        return None;
      }
      r := WriteSecret(key, updated, verify, after);
    }
  }

  lemma UnchangedIs(secrets: Secrets, key: string, update: Update)
    requires NoneEmpty(secrets) && Overlay(Read(secrets, key), update) == Read(secrets, key)
    ensures Updated(secrets, key, update) == secrets && Holds(secrets, key, Read(secrets, key))
  {
    if key !in secrets {
      assert secrets - {key} == secrets;
    } else {
      assert secrets[key := secrets[key]] == secrets;
    }
  }

  /** The fields that an update of an absent secret sets. */
  method SetFields(update: Update) returns (secret: Secret)
    ensures secret == Overlay(map[], update)
  {
    secret := map[];
    var left := update.Keys;
    while left != {}
      invariant left <= update.Keys
      invariant secret == map f | f in update && f !in left && update[f].Some? :: update[f].value
    {
      var f :| f in left;
      left := left - {f};
      if update[f].Some? {
        secret := secret[f := update[f].value];
      }
    }
  }

  /** The part of the update that has been done. */
  function Done(update: Update, left: set<string>): Update {
    map f | f in update && f !in left :: update[f]
  }

  lemma OneFieldMore(secret: Secret, update: Update, left: set<string>, f: string)
    requires f in left && f in update
    ensures Overlay(secret, Done(update, left - {f}))
         == if update[f].None? then Overlay(secret, Done(update, left)) - {f}
            else Overlay(secret, Done(update, left))[f := update[f].value]
  {
  }

  method Patch(secret: Secret, update: Update) returns (patched: Secret)
    ensures patched == Overlay(secret, update)
  {
    patched := secret;
    var left := update.Keys;
    assert Overlay(secret, Done(update, left)) == secret;
    while left != {}
      invariant left <= update.Keys
      invariant patched == Overlay(secret, Done(update, left))
    {
      var f :| f in left;
      OneFieldMore(secret, update, left, f);
      left := left - {f};
      if update[f].None? {
        patched := patched - {f};
      } else {
        patched := patched[f := update[f].value];
      }
    }
    assert Done(update, {}) == update;
  }

  // ---------------------------------------------------------------------------------------------
  // The algebra of updates
  // ---------------------------------------------------------------------------------------------

  lemma OverlayTwice(secret: Secret, u1: Update, u2: Update)
    ensures Overlay(Overlay(secret, u1), u2) == Overlay(secret, u1 + u2)
  {
  }

  /** Two updates of a secret are one update with the later values; it does not matter that the first may have
      deleted the secret. */
  lemma UpdateTwice(secrets: Secrets, key: string, u1: Update, u2: Update)
    ensures Updated(Updated(secrets, key, u1), key, u2) == Updated(secrets, key, u1 + u2)
  {
    OverlayTwice(Read(secrets, key), u1, u2);
  }

  /** An update that is repeated changes nothing, so (by `Vault.Update`) it sends nothing. */
  lemma RepeatIsQuiet(secrets: Secrets, key: string, update: Update)
    ensures Updated(Updated(secrets, key, update), key, update) == Updated(secrets, key, update)
  {
    UpdateTwice(secrets, key, update, update);
    assert update + update == update;
  }

  datatype Request = Request(key: string, update: Update)

  function UpdatedAll(secrets: Secrets, requests: seq<Request>): Secrets
    decreases |requests|
  {
    if requests == [] then secrets
    else UpdatedAll(Updated(secrets, requests[0].key, requests[0].update), requests[1..])
  }

  /** The updates of one secret, merged. */
  function Merged(requests: seq<Request>, key: string): Update {
    if requests == [] then map[]
    else (if requests[0].key == key then requests[0].update else map[]) + Merged(requests[1..], key)
  }

  lemma UpdatedReads(secrets: Secrets, key: string, update: Update, k: string)
    requires NoneEmpty(secrets)
    ensures NoneEmpty(Updated(secrets, key, update))
    ensures Read(Updated(secrets, key, update), k) == if k == key then Overlay(Read(secrets, k), update)
                else Read(secrets, k)
  {
  }

  lemma MergedFirst(requests: seq<Request>, key: string)
    requires requests != []
    ensures var rest := Merged(requests[1..], key);
            Merged(requests, key) == if requests[0].key == key then requests[0].update + rest else rest
  {
    assert map[] + Merged(requests[1..], key) == Merged(requests[1..], key);
  }

  lemma FirstRequest(secret: Secret, requests: seq<Request>, key: string)
    requires requests != []
    ensures Overlay(if requests[0].key == key then Overlay(secret, requests[0].update)
                    else secret, Merged(requests[1..], key))
         == Overlay(secret, Merged(requests, key))
  {
    MergedFirst(requests, key);
    OverlayTwice(secret, requests[0].update, Merged(requests[1..], key));
  }

  /** After any run of updates every secret is its first value with its merged update laid over it, and none is
      stored empty: a secret whose fields have all been deleted is absent. */
  lemma {:induction false} RunIsMerged(secrets: Secrets, requests: seq<Request>, key: string)
    requires NoneEmpty(secrets)
    ensures NoneEmpty(UpdatedAll(secrets, requests))
    ensures Read(UpdatedAll(secrets, requests), key) == Overlay(Read(secrets, key), Merged(requests, key))
    ensures key in UpdatedAll(secrets, requests) <==> Overlay(Read(secrets, key), Merged(requests, key)) != map[]
    decreases |requests|
  {
    if requests == [] {
      assert Overlay(Read(secrets, key), map[]) == Read(secrets, key);
    } else {
      UpdatedReads(secrets, requests[0].key, requests[0].update, key);
      FirstRequest(Read(secrets, key), requests, key);
      RunIsMerged(Updated(secrets, requests[0].key, requests[0].update), requests[1..], key);
    }
  }

  /** The last request for the secret that names the field decides what becomes of it. */
  lemma {:induction false} LastRequestDecides(secrets: Secrets, requests: seq<Request>, key: string, f: string, i: nat)
    requires NoneEmpty(secrets)
    requires i < |requests| && requests[i].key == key && f in requests[i].update
    requires forall j :: i < j < |requests| && requests[j].key == key ==> f !in requests[j].update
    ensures var after := UpdatedAll(secrets, requests);
            match requests[i].update[f]
            case None => key in after ==> f !in after[key]
            case Some(value) => key in after && f in after[key] && after[key][f] == value
    decreases |requests|
  {
    var first := Updated(secrets, requests[0].key, requests[0].update);
    UpdatedReads(secrets, requests[0].key, requests[0].update, key);
    if i > 0 {
      LastRequestDecides(first, requests[1..], key, f, i - 1);
    } else {
      assert forall j :: 0 <= j < |requests[1..]| ==> requests[1..][j] == requests[j + 1];
      UntouchedField(first, requests[1..], key, f);
      assert f in Read(first, key) <==> requests[0].update[f].Some?;
    }
  }

  /** A field that no request for the secret names stays as it was, present or not. */
  lemma {:induction false} UntouchedField(secrets: Secrets, requests: seq<Request>, key: string, f: string)
    requires NoneEmpty(secrets)
    requires forall j :: 0 <= j < |requests| && requests[j].key == key ==> f !in requests[j].update
    ensures var after := UpdatedAll(secrets, requests);
            && (key in after && f in after[key] <==> key in secrets && f in secrets[key])
            && (key in after && f in after[key] ==> after[key][f] == secrets[key][f])
    decreases |requests|
  {
    if requests != [] {
      UpdatedReads(secrets, requests[0].key, requests[0].update, key);
      UntouchedField(Updated(secrets, requests[0].key, requests[0].update), requests[1..], key, f);
      assert f in Read(Updated(secrets, requests[0].key, requests[0].update), key) <==> f in Read(secrets, key);
    }
  }
}
