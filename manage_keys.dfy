/** The administrator's key register: a dialog that creates or edits a key's record.
    The key number is stored upper-cased and an unset vehicle link as null; the
    status is written as chosen, without consulting the key transactions, so an
    edit can break the custody rule. */
module KeyAdmin {
  import opened Common
  import opened Records
  import opened Tables
  import opened Ledger

  /** The row a creation inserts: no checkout recorded yet. */
  function NewKeyRow(id: int, keyNumber: string, keyType: KeyType, description: string, vehicleId: Option<int>,
                     status: KeyStatus, now: int): (r: Key)
    ensures r.id == id && r.keyNumber == ToUpper(keyNumber) && r.keyType == keyType && r.vehicleId == vehicleId
    ensures r.status == status && r.lastCheckoutBy.None? && r.lastCheckoutTime.None? && r.updatedAt == Some(now)
  {
    Key(id, ToUpper(keyNumber), keyType, description, vehicleId, status, None, None, Some(now))
  }

  /** The update of an edit: the form's fields and the update time on row `k`; the
      last checkout stays as recorded. */
  function EditKeyRow(keys: map<int, Key>, k: int, keyNumber: string, keyType: KeyType, description: string,
                      vehicleId: Option<int>, status: KeyStatus, now: int): (r: map<int, Key>)
    ensures r.Keys == keys.Keys
    ensures forall id :: id in keys && id != k ==> r[id] == keys[id]
    ensures k in keys ==>
              r[k] == Key(keys[k].id, ToUpper(keyNumber), keyType, description, vehicleId, status,
                          keys[k].lastCheckoutBy, keys[k].lastCheckoutTime, Some(now))
  {
    if k in keys then
      keys[k := keys[k].(keyNumber := ToUpper(keyNumber), keyType := keyType, description := description,
                         vehicleId := vehicleId, status := status, updatedAt := Some(now))]
    else keys
  }

  /** An edit that leaves the status as it was keeps the custody rule. */
  lemma StatusPreservingEditKeepsCustody(keys: map<int, Key>, txs: map<int, KeyTransaction>, k: int,
                                         keyNumber: string, keyType: KeyType, description: string,
                                         vehicleId: Option<int>, now: int)
    requires k in keys
    ensures KeyCustodyConsistent(keys, txs) ==>
              KeyCustodyConsistent(EditKeyRow(keys, k, keyNumber, keyType, description, vehicleId, keys[k].status, now),
                                   txs)
  {
    var after := EditKeyRow(keys, k, keyNumber, keyType, description, vehicleId, keys[k].status, now);
    assert forall j :: j in keys ==> after[j].status == keys[j].status;
  }

  /** An edit that makes a key with an open transaction available breaks the custody
      rule. */
  lemma ReleaseOfKeyOutBreaksCustody(keys: map<int, Key>, txs: map<int, KeyTransaction>, t: int,
                                     keyNumber: string, keyType: KeyType, description: string,
                                     vehicleId: Option<int>, now: int)
    requires t in txs && txs[t].status == TxOut && txs[t].keyId in keys
    ensures !KeyCustodyConsistent(EditKeyRow(keys, txs[t].keyId, keyNumber, keyType, description, vehicleId,
                                             KeyAvailable, now), txs)
  {
    var k := txs[t].keyId;
    assert IsOpenTx(txs, t, k);
  }

  /** An edit that marks a key checked out while no transaction holds it breaks the
      custody rule. */
  lemma CheckoutWithoutTxBreaksCustody(keys: map<int, Key>, txs: map<int, KeyTransaction>, k: int,
                                       keyNumber: string, keyType: KeyType, description: string,
                                       vehicleId: Option<int>, now: int)
    requires k in keys && forall t :: t in txs && txs[t].keyId == k ==> txs[t].status != TxOut
    ensures !KeyCustodyConsistent(EditKeyRow(keys, k, keyNumber, keyType, description, vehicleId,
                                             KeyCheckedOut, now), txs)
  {
    assert forall t :: !IsOpenTx(txs, t, k);
  }

  /** Registering an available key under an unused id keeps the custody rule; no
      transaction can be open on an id the table did not hold. */
  lemma NewAvailableKeyKeepsCustody(keys: map<int, Key>, txs: map<int, KeyTransaction>, id: int, row: Key)
    requires id !in keys && row.status == KeyAvailable
    ensures KeyCustodyConsistent(keys, txs) ==> KeyCustodyConsistent(keys[id := row], txs)
  {
    if KeyCustodyConsistent(keys, txs) {
      assert forall t :: !IsOpenTx(txs, t, id);
    }
  }

  /** The key dialog and the screen's banner. `vehicleId` is the linked vehicle, if
      any; it is kept whatever the type, though the field shows for vehicle keys only. */
  class KeyEditor {
    var dialogOpen: bool
    var editingKey: Option<Key>
    var keyNumber: string
    var keyType: KeyType
    var description: string
    var vehicleId: Option<int>
    var status: KeyStatus
    var message: Option<Message>
    /** The pending closes of the dialog that successful saves scheduled. */
    var closeTimers: seq<int>

    constructor ()
      ensures !dialogOpen && editingKey == None && keyNumber == "" && keyType == WarehouseKey
      ensures description == "" && vehicleId == None && status == KeyAvailable && message == None
      ensures closeTimers == []
    {
      dialogOpen := false;
      editingKey := None;
      keyNumber := "";
      keyType := WarehouseKey;
      description := "";
      vehicleId := None;
      status := KeyAvailable;
      message := None;
      closeTimers := [];
    }

    /** `openDialog`: an existing record fills the form; without one the form takes
        the new-key defaults. */
    method OpenDialog(key: Option<Key>)
      modifies this
      ensures closeTimers == old(closeTimers)
      ensures dialogOpen && editingKey == key && message == None
      ensures key.Some? ==>
                keyNumber == key.value.keyNumber && keyType == key.value.keyType &&
                description == key.value.description && vehicleId == key.value.vehicleId &&
                status == key.value.status
      ensures key.None? ==>
                keyNumber == "" && keyType == WarehouseKey && description == "" && vehicleId == None &&
                status == KeyAvailable
    {
      editingKey := key;
      if key.Some? {
        var k := key.value;
        keyNumber := k.keyNumber;
        keyType := k.keyType;
        description := k.description;
        vehicleId := k.vehicleId;
        status := k.status;
      } else {
        keyNumber := "";
        keyType := WarehouseKey;
        description := "";
        vehicleId := None;
        status := KeyAvailable;
      }
      dialogOpen := true;
      message := None;
    }

    /** `closeDialog`: the dialog closes and forgets the record; the form keeps its
        fields until the next opening. */
    method CloseDialog()
      modifies this
      ensures closeTimers == old(closeTimers)
      ensures !dialogOpen && editingKey == None
      ensures keyNumber == old(keyNumber) && keyType == old(keyType) && description == old(description)
      ensures vehicleId == old(vehicleId) && status == old(status) && message == old(message)
    {
      dialogOpen := false;
      editingKey := None;
    }

    /** Time passes: once a close scheduled by a save is due, the dialog closes as
        `closeDialog` closes it, whatever was opened since. */
    method Tick(now: int)
      modifies this
      ensures closeTimers == Pending(old(closeTimers), now)
      ensures (exists d :: d in old(closeTimers) && d <= now) ==> !dialogOpen && editingKey == None
      ensures !(exists d :: d in old(closeTimers) && d <= now) ==>
                dialogOpen == old(dialogOpen) && editingKey == old(editingKey)
      ensures keyNumber == old(keyNumber) && keyType == old(keyType) && description == old(description)
      ensures vehicleId == old(vehicleId) && status == old(status) && message == old(message)
    {
      if exists d :: d in closeTimers && d <= now {
        dialogOpen := false;
        editingKey := None;
      }
      closeTimers := Pending(closeTimers, now);
    }

    /** `handleSave`. An empty key number is refused with nothing written. Otherwise
        the edited record is updated, or a new record is inserted under the next id;
        either way with the status chosen in the form. */
    method Save(db: Store, now: int, write: WriteResult)
      requires db.Valid()
      modifies this, db
      ensures closeTimers == (if old(keyNumber) != "" && write.Written?
                            then old(closeTimers) + [now + DialogCloseMs] else old(closeTimers))
      ensures db.Valid()
      ensures db.employees == old(db.employees) && db.keyTxs == old(db.keyTxs) && db.vehicles == old(db.vehicles)
      ensures db.trips == old(db.trips) && db.visitors == old(db.visitors)
      ensures keyNumber == old(keyNumber) && keyType == old(keyType) && description == old(description)
      ensures vehicleId == old(vehicleId) && status == old(status)
      ensures dialogOpen == old(dialogOpen) && editingKey == old(editingKey)
      ensures old(keyNumber) == "" ==>
                message == Some(Failure("Please fill in all required fields")) && db.keys == old(db.keys)
      ensures old(keyNumber) != "" && write.Rejected? ==> message == Some(Failure(write.reason)) && db.keys == old(db.keys)
      ensures old(keyNumber) != "" && write.Written? && old(editingKey).Some? ==>
                db.keys == EditKeyRow(old(db.keys), old(editingKey).value.id, old(keyNumber), old(keyType),
                                      old(description), old(vehicleId), old(status), now) &&
                message == Some(Success("Key updated successfully"))
      ensures old(keyNumber) != "" && write.Written? && old(editingKey).None? ==>
                var id := old(db.nextId);
                id !in old(db.keys) &&
                db.keys == old(db.keys)[id := NewKeyRow(id, old(keyNumber), old(keyType), old(description),
                                                        old(vehicleId), old(status), now)] &&
                message == Some(Success("Key added successfully"))
    {
      if keyNumber == "" {
        message := Some(Failure("Please fill in all required fields"));
        return;
      }
      if editingKey.Some? {
        if write.Rejected? {
          message := Some(Failure(write.reason));
          return;
        }
        db.SetKeys(EditKeyRow(db.keys, editingKey.value.id, keyNumber, keyType, description, vehicleId, status, now));
        message := Some(Success("Key updated successfully"));
      } else {
        var id := db.FreshId();
        if write.Rejected? {
          message := Some(Failure(write.reason));
          return;
        }
        db.PutKey(id, NewKeyRow(id, keyNumber, keyType, description, vehicleId, status, now));
        message := Some(Success("Key added successfully"));
      }
      closeTimers := closeTimers + [now + DialogCloseMs];
    }
  }
}
