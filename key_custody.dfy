/** Key checkout and key return at the control room. A checkout inserts an open
    transaction and then marks the key checked out; a return closes the transaction
    and then marks the key available. Each write is a separate call to the storage
    service, whose outcome is an input: a refused write ends the handler with the
    service's message and skips everything after it. */
module KeyCustody {
  import opened Common
  import opened Records
  import opened Identity
  import opened Tables
  import opened Ledger

  /** The keys offered on the checkout tab: those whose status is available. */
  function AvailableKeys(keys: map<int, Key>): (r: set<int>)
    ensures forall k :: k in r <==> k in keys && keys[k].status == KeyAvailable
  {
    set k | k in keys && keys[k].status == KeyAvailable
  }

  /** The transactions listed on the return tab: those whose status is out. */
  function OpenTransactions(txs: map<int, KeyTransaction>): (r: set<int>)
    ensures forall t :: t in r <==> t in txs && txs[t].status == TxOut
  {
    set t | t in txs && txs[t].status == TxOut
  }

  /** While key custody is consistent, the return tab lists one transaction for every
      checked-out key and none for any other key, and the checkout tab offers every
      key that is not checked out. */
  lemma ReturnTabMatchesCheckedOutKeys(keys: map<int, Key>, txs: map<int, KeyTransaction>)
    requires KeyCustodyConsistent(keys, txs)
    ensures (set t | t in OpenTransactions(txs) :: txs[t].keyId) ==
            (set k | k in keys && keys[k].status == KeyCheckedOut)
    ensures AvailableKeys(keys) == (set k | k in keys && keys[k].status != KeyCheckedOut)
  {
    var listed := set t | t in OpenTransactions(txs) :: txs[t].keyId;
    var out := set k | k in keys && keys[k].status == KeyCheckedOut;
    forall k | k in out ensures k in listed {
      var t :| IsOpenTx(txs, t, k);
      assert t in OpenTransactions(txs);
    }
    forall k | k in listed ensures k in out {
      var t :| t in OpenTransactions(txs) && txs[t].keyId == k;
      assert IsOpenTx(txs, t, k);
    }
  }

  /** The checkout tab. */
  class KeyCheckout {
    var selectedKey: Option<Key>
    var personBarcode: string
    var personData: Option<Employee>
    var purpose: string
    var message: Option<Message>

    constructor ()
      ensures selectedKey == None && personBarcode == "" && personData == None
      ensures purpose == "" && message == None
    {
      selectedKey := None;
      personBarcode := "";
      personData := None;
      purpose := "";
      message := None;
    }

    /** A click on one of the listed keys, which are the available ones. */
    method SelectKey(key: Key)
      requires key.status == KeyAvailable
      modifies this
      ensures selectedKey == Some(key)
      ensures personBarcode == old(personBarcode) && personData == old(personData)
      ensures purpose == old(purpose) && message == old(message)
    {
      selectedKey := Some(key);
    }

    /** `handlePersonScan`: the single active employee with the barcode becomes the
        person; when there is none, the person verified before stays. */
    method PersonScan(employees: map<int, Employee>, barcode: string)
      modifies this
      ensures personBarcode == barcode
      ensures FindActiveEmployee(employees, barcode).Some? ==>
                personData == FindActiveEmployee(employees, barcode) &&
                message == Some(Success(personData.value.name + " verified"))
      ensures FindActiveEmployee(employees, barcode).None? ==>
                personData == old(personData) && message == Some(Failure("Employee not found"))
      ensures personData.Some? ==> personData.value.status == Active || personData == old(personData)
      ensures selectedKey == old(selectedKey) && purpose == old(purpose)
    {
      personBarcode := barcode;
      var found := FindActiveEmployee(employees, barcode);
      if found.Some? {
        personData := found;
        message := Some(Success(found.value.name + " verified"));
      } else {
        message := Some(Failure("Employee not found"));
      }
    }

    method PurposeChange(value: string)
      modifies this
      ensures purpose == value
      ensures selectedKey == old(selectedKey) && personBarcode == old(personBarcode)
      ensures personData == old(personData) && message == old(message)
    {
      purpose := value;
    }

    /** The checkout form is complete: a key, a verified person and a purpose. */
    predicate Ready()
      reads this
    {
      selectedKey.Some? && personData.Some? && purpose != ""
    }

    /** `handleCheckout`. An incomplete form writes nothing. Otherwise the open
        transaction is inserted; if that succeeds the key is marked checked out; if
        that succeeds too the form is cleared. */
    method Checkout(db: Store, officerId: int, now: int, txWrite: WriteResult, keyWrite: WriteResult)
      requires db.Valid()
      modifies this, db
      ensures db.Valid()
      ensures db.employees == old(db.employees) && db.vehicles == old(db.vehicles)
      ensures db.trips == old(db.trips) && db.visitors == old(db.visitors)
      // an incomplete form, or a refused insert, writes nothing
      ensures !old(Ready()) ==>
                message == Some(Failure("Please select key, scan person, and enter purpose")) &&
                db.keyTxs == old(db.keyTxs) && db.keys == old(db.keys)
      ensures old(Ready()) && txWrite.Rejected? ==>
                message == Some(Failure(txWrite.reason)) &&
                db.keyTxs == old(db.keyTxs) && db.keys == old(db.keys)
      // a stored insert is the one open transaction for this key, person, officer and purpose
      ensures old(Ready()) && txWrite.Written? ==>
                var id := old(db.nextId);
                id !in old(db.keyTxs) &&
                db.keyTxs == old(db.keyTxs)[id := OpenTx(id, old(selectedKey).value.id, old(personData).value.id,
                                                         officerId, old(purpose), now)]
      // a refused key update leaves the key as it was
      ensures old(Ready()) && txWrite.Written? && keyWrite.Rejected? ==>
                db.keys == old(db.keys) && message == Some(Failure(keyWrite.reason))
      ensures old(Ready()) && txWrite.Written? && keyWrite.Written? ==>
                db.keys == CheckOutKeyRow(old(db.keys), old(selectedKey).value.id, old(personData).value.id, now) &&
                message == Some(Success("Key " + old(selectedKey).value.keyNumber + " checked out to " +
                                        old(personData).value.name))
      // only a completed checkout clears the form
      ensures old(Ready()) && txWrite.Written? && keyWrite.Written? ==>
                selectedKey == None && personData == None && personBarcode == "" && purpose == ""
      ensures !(old(Ready()) && txWrite.Written? && keyWrite.Written?) ==>
                selectedKey == old(selectedKey) && personData == old(personData) &&
                personBarcode == old(personBarcode) && purpose == old(purpose)
      // a completed checkout of a key that is still available keeps key custody consistent
      ensures old(Ready()) && txWrite.Written? && keyWrite.Written? &&
              KeyCustodyConsistent(old(db.keys), old(db.keyTxs)) &&
              old(selectedKey).value.id in old(db.keys) &&
              old(db.keys)[old(selectedKey).value.id].status == KeyAvailable ==>
                KeyCustodyConsistent(db.keys, db.keyTxs)
    {
      if !Ready() {
        message := Some(Failure("Please select key, scan person, and enter purpose"));
        return;
      }
      var key := selectedKey.value;
      var person := personData.value;
      var _ := WriteCheckout(db, key.id, person.id, officerId, purpose, now, txWrite, keyWrite);
      if txWrite.Rejected? {
        message := Some(Failure(txWrite.reason));
        return;
      }
      if keyWrite.Rejected? {
        message := Some(Failure(keyWrite.reason));
        return;
      }
      message := Some(Success("Key " + key.keyNumber + " checked out to " + person.name));
      selectedKey := None;
      personData := None;
      personBarcode := "";
      purpose := "";
    }
  }

  /** The return dialog for one listed transaction. `transaction` and `keyNumber` are
      the row as it was listed, which may since have changed in the store. */
  class KeyReturn {
    const transaction: KeyTransaction
    const keyNumber: string
    var returnerBarcode: string
    var returnerData: Option<Employee>
    var reason: string
    var message: Option<Message>

    constructor (transaction: KeyTransaction, keyNumber: string)
      ensures this.transaction == transaction && this.keyNumber == keyNumber
      ensures returnerBarcode == "" && returnerData == None && reason == "" && message == None
    {
      this.transaction := transaction;
      this.keyNumber := keyNumber;
      returnerBarcode := "";
      returnerData := None;
      reason := "";
      message := None;
    }

    /** `isDifferentPerson`: someone has been scanned and is not the holder. */
    predicate IsDifferentPerson()
      reads this
    {
      returnerData.Some? && returnerData.value.id != transaction.personOutId
    }

    /** The free-text reason field is on screen. */
    predicate OtherFieldShown()
      reads this
    {
      IsDifferentPerson() && reason == "other"
    }

    /** `handleReturnerScan`: as for the checkout's person scan. */
    method ReturnerScan(employees: map<int, Employee>, barcode: string)
      modifies this
      ensures returnerBarcode == barcode
      ensures FindActiveEmployee(employees, barcode).Some? ==>
                returnerData == FindActiveEmployee(employees, barcode) &&
                message == Some(Success(returnerData.value.name + " verified"))
      ensures FindActiveEmployee(employees, barcode).None? ==>
                returnerData == old(returnerData) && message == Some(Failure("Employee not found"))
      ensures reason == old(reason)
    {
      returnerBarcode := barcode;
      var found := FindActiveEmployee(employees, barcode);
      if found.Some? {
        returnerData := found;
        message := Some(Success(found.value.name + " verified"));
      } else {
        message := Some(Failure("Employee not found"));
      }
    }

    /** A choice in the reason list, shown only for a different person. */
    method ChooseReason(choice: string)
      requires IsDifferentPerson() && choice in HandoverReasons
      modifies this
      ensures reason == choice
      ensures OtherFieldShown() <==> choice == "other"
      ensures returnerBarcode == old(returnerBarcode) && returnerData == old(returnerData)
      ensures message == old(message)
    {
      reason := choice;
    }

    /** A change in the free-text field replaces the reason with the field's text. The
        field is shown only while the reason is "other", so after a first keystroke
        that makes it anything else the field is gone: the reason keeps that text. */
    method TypeOtherReason(text: string)
      requires OtherFieldShown()
      modifies this
      ensures reason == text
      ensures OtherFieldShown() <==> text == "other"
      ensures returnerBarcode == old(returnerBarcode) && returnerData == old(returnerData)
      ensures message == old(message)
    {
      reason := text;
    }

    /** `handleReturn`; `closed` is the call of the dialog's success callback. A
        missing returner, or a different returner without a reason, writes nothing.
        Otherwise the transaction is closed, then the key is released. Whether the
        listed transaction is still open is not checked. */
    method Return(db: Store, officerId: int, now: int, txWrite: WriteResult, keyWrite: WriteResult)
      returns (closed: bool)
      requires db.Valid()
      modifies this, db
      ensures db.Valid()
      ensures db.employees == old(db.employees) && db.vehicles == old(db.vehicles)
      ensures db.trips == old(db.trips) && db.visitors == old(db.visitors)
      ensures returnerBarcode == old(returnerBarcode) && returnerData == old(returnerData) && reason == old(reason)
      ensures closed <==> old(returnerData).Some? && !(old(IsDifferentPerson()) && old(reason) == "") &&
                          txWrite.Written? && keyWrite.Written?
      ensures old(returnerData).None? ==>
                message == Some(Failure("Please scan employee barcode")) &&
                db.keyTxs == old(db.keyTxs) && db.keys == old(db.keys)
      ensures old(IsDifferentPerson()) && old(reason) == "" ==>
                message == Some(Failure("Please select reason for different person")) &&
                db.keyTxs == old(db.keyTxs) && db.keys == old(db.keys)
      ensures old(returnerData).Some? && !(old(IsDifferentPerson()) && old(reason) == "") && txWrite.Rejected? ==>
                message == Some(Failure(txWrite.reason)) &&
                db.keyTxs == old(db.keyTxs) && db.keys == old(db.keys)
      // the reason is stored only for a different person
      ensures old(returnerData).Some? && !(old(IsDifferentPerson()) && old(reason) == "") && txWrite.Written? ==>
                db.keyTxs == CloseTxRow(old(db.keyTxs), transaction.id, old(returnerData).value.id, officerId, now,
                                        if old(IsDifferentPerson()) then Some(old(reason)) else None)
      ensures old(returnerData).Some? && !(old(IsDifferentPerson()) && old(reason) == "") && txWrite.Written? &&
              keyWrite.Rejected? ==>
                message == Some(Failure(keyWrite.reason)) && db.keys == old(db.keys)
      ensures closed ==>
                db.keys == ReleaseKeyRow(old(db.keys), transaction.keyId) &&
                message == Some(Success("Key " + keyNumber + " returned successfully"))
      // returning a transaction that is still open keeps key custody consistent
      ensures closed && KeyCustodyConsistent(old(db.keys), old(db.keyTxs)) &&
              transaction.id in old(db.keyTxs) && old(db.keyTxs)[transaction.id].status == TxOut &&
              old(db.keyTxs)[transaction.id].keyId == transaction.keyId ==>
                KeyCustodyConsistent(db.keys, db.keyTxs)
    {
      closed := false;
      if returnerData.None? {
        message := Some(Failure("Please scan employee barcode"));
        return;
      }
      var different := IsDifferentPerson();
      if different && reason == "" {
        message := Some(Failure("Please select reason for different person"));
        return;
      }
      var stored := if different then Some(reason) else None;
      WriteKeyReturn(db, transaction.id, transaction.keyId, returnerData.value.id, officerId, now, stored,
                     txWrite, keyWrite);
      if txWrite.Rejected? {
        message := Some(Failure(txWrite.reason));
        return;
      }
      if keyWrite.Rejected? {
        message := Some(Failure(keyWrite.reason));
        return;
      }
      message := Some(Success("Key " + keyNumber + " returned successfully"));
      closed := true;
    }
  }
}
