/**
 * The tangible-interface form: the callbacks the TUIO client invokes for
 * markers, cursors and blobs, the rotary menu they drive, and the list of MAC
 * addresses collected from the secondary peer for the login option.
 */
module TuioDemoApp {
  import opened Wrappers
  import opened Selection
  import opened MacAddresses
  import opened Registries

  /** A fiducial marker as the tracker decodes it; `angle` in degrees. */
  datatype TuioObject = TuioObject(sessionId: int, symbolId: int, x: real, y: real, angle: Degrees)

  /** A touch point. */
  datatype TuioCursor = TuioCursor(sessionId: int, x: real, y: real)

  /** An amorphous contact region. */
  datatype TuioBlob = TuioBlob(sessionId: int, x: real, y: real)

  /** The marker whose rotation drives the menu and whose presence shows it. */
  const MenuSymbol: int := 1

  /** The marker whose appearance confirms the highlighted option. */
  const ConfirmSymbol: int := 2

  /** What the option screen shows once an option is confirmed. */
  datatype Screen = LoggedIn(mac: string) | NoDeviceForLogin | InfoScreen | FightScreen | ResultsScreen

  /** The identity the login option logs in with: the first MAC address collected, if any. */
  function LoginIdentity(macs: seq<string>): (r: Option<string>)
    ensures r.Some? <==> macs != []
    ensures r.Some? ==> r.value in macs
  {
    if |macs| > 0 then Some(macs[0]) else None
  }

  /** The screen `ShowOptionScreen` opens for `option`; an option outside its switch opens none. */
  function OptionScreen(option: string, macs: seq<string>): (s: Option<Screen>)
    ensures s.Some? <==> option in MenuOptions
    ensures option == "Login" ==> s == Some(if macs == [] then NoDeviceForLogin else LoggedIn(macs[0]))
  {
    match option
    case "Login" => Some(match LoginIdentity(macs) case Some(m) => LoggedIn(m) case None => NoDeviceForLogin)
    case "Info" => Some(InfoScreen)
    case "Fight" => Some(FightScreen)
    case "Results" => Some(ResultsScreen)
    case _ => None
  }

  /** Every menu option opens a screen, and only the login screen depends on the MAC list. */
  lemma EveryOptionOpensAScreen(i: nat, macs: seq<string>, macs': seq<string>)
    requires i < |MenuOptions|
    ensures OptionScreen(MenuOptions[i], macs).Some?
    ensures i != 0 ==> OptionScreen(MenuOptions[i], macs) == OptionScreen(MenuOptions[i], macs')
  {
  }

  /**
   * Collecting more MAC addresses never changes who logs in once someone can:
   * the login identity is the earliest address ever collected.
   */
  lemma {:induction false} LoginIsEarliestMac(macs: seq<string>, tokens: seq<string>)
    ensures macs != [] ==> LoginIdentity(AppendAbsent(macs, tokens)) == LoginIdentity(macs)
    ensures macs == [] && tokens != [] ==> LoginIdentity(AppendAbsent(macs, tokens)) == Some(tokens[0])
    decreases |tokens|
  {
    if macs == [] && |tokens| > 1 {
      var init := tokens[..|tokens| - 1];
      LoginIsEarliestMac(macs, init);
      assert init[0] == tokens[0];
    }
  }

  /** The outcome of `addTuioObject`: the `Dictionary.Add` exception, or the screen it opened. */
  datatype ObjectAdded = Rejected | Accepted(screen: Option<Screen>)

  class TuioDemo {
    const objectList: Registry<TuioObject>
    const cursorList: Registry<TuioCursor>
    const blobList: Registry<TuioBlob>
    var macAddresses: seq<string>
    var selectedOption: int
    var showMenu: bool
    /** How many repaints (`Invalidate()` calls) the callbacks have requested. */
    var invalidations: nat

    ghost predicate Valid()
      reads this
    {
      0 <= selectedOption < |MenuOptions| &&
      NoDuplicates(macAddresses) &&
      forall i :: 0 <= i < |macAddresses| ==> IsMacAddress(macAddresses[i])
    }

    constructor ()
      ensures Valid() && fresh(objectList) && fresh(cursorList) && fresh(blobList)
      ensures objectList.entries == map[] && cursorList.entries == map[] && blobList.entries == map[]
      ensures macAddresses == [] && selectedOption == 0 && !showMenu && invalidations == 0
    {
      objectList := new Registry();
      cursorList := new Registry();
      blobList := new Registry();
      macAddresses := [];
      selectedOption := 0;
      showMenu := false;
      invalidations := 0;
    }

    /**
     * Appends every MAC address found in `message` that the list does not hold
     * yet, in the order the matches occur.
     */
    method ExtractMacAddresses(message: string)
      requires Valid()
      modifies this`macAddresses
      ensures Valid()
      ensures macAddresses == AppendAbsent(old(macAddresses), MatchValues(Matches(message)))
    {
      var matches := Matches(message);
      ghost var values := MatchValues(matches);
      for k := 0 to |matches|
        invariant macAddresses == AppendAbsent(old(macAddresses), values[..k])
      {
        var macAddress := matches[k].value;
        assert values[..k + 1][..k] == values[..k];
        if macAddress !in macAddresses {
          macAddresses := macAddresses + [macAddress];
        }
      }
      assert values[..|matches|] == values;
      AppendAbsentNoDuplicates(old(macAddresses), values);
      forall i | 0 <= i < |macAddresses|
        ensures IsMacAddress(macAddresses[i])
      {
        AppendAbsentMembers(old(macAddresses), values, macAddresses[i]);
        if macAddresses[i] !in old(macAddresses) {
          var k :| 0 <= k < |values| && values[k] == macAddresses[i];
          assert MatchesAt(message, matches[k].index);
        }
      }
    }

    /** One poll of the receive loop: a message that arrived is scanned, a null read is skipped. */
    method HandleReceived(received: Option<string>)
      requires Valid()
      modifies this`macAddresses
      ensures Valid()
      ensures macAddresses == match received
                              case Some(m) => AppendAbsent(old(macAddresses), MatchValues(Matches(m)))
                              case None => old(macAddresses)
    {
      if received.Some? {
        ExtractMacAddresses(received.value);
      }
    }

    /**
     * A marker appears. A session id already present makes `Dictionary.Add`
     * throw, so the rest of the callback, the confirm action, does not run.
     */
    method AddTuioObject(o: TuioObject) returns (r: ObjectAdded)
      requires Valid()
      modifies objectList
      ensures Valid()
      ensures objectList.entries == AddEntry(old(objectList.entries), o.sessionId, o)
      ensures r == if o.sessionId in old(objectList.entries) then Rejected
                   else Accepted(if o.symbolId == ConfirmSymbol
                                 then OptionScreen(MenuOptions[selectedOption], macAddresses)
                                 else None)
    {
      var added := objectList.Add(o.sessionId, o);
      if added == DuplicateKey {
        return Rejected;
      }
      var screen: Option<Screen> := None;
      if o.symbolId == ConfirmSymbol {
        screen := OptionScreen(MenuOptions[selectedOption], macAddresses);
      }
      r := Accepted(screen);
    }

    /**
     * A marker moves or turns. The menu marker shows the menu and selects the
     * sector its angle points into; a repaint is requested only when the
     * selection changes. The registry is not touched.
     */
    method UpdateTuioObject(o: TuioObject)
      requires Valid()
      modifies this`showMenu, this`selectedOption, this`invalidations
      ensures Valid()
      ensures unchanged(objectList)
      ensures showMenu == (o.symbolId == MenuSymbol || old(showMenu))
      ensures selectedOption == if o.symbolId == MenuSymbol then MenuIndex(o.angle)
                                else old(selectedOption)
      ensures invalidations == old(invalidations) + if selectedOption != old(selectedOption) then 1 else 0
    {
      if o.symbolId == MenuSymbol {
        showMenu := true;
        var newSelectedOption := SelectionIndex(o.angle, |MenuOptions|);
        MenuSectorWidth(o.angle);
        if newSelectedOption != selectedOption {
          selectedOption := newSelectedOption;
          invalidations := invalidations + 1;
        }
      }
    }

    /**
     * The tracker reports the menu marker `o` at the angles `angles` in turn:
     * the menu is shown, the selection ends at the last angle's sector, and
     * exactly the debounced selection changes request a repaint.
     */
    method UpdateMenuMarker(o: TuioObject, angles: seq<Degrees>)
      requires Valid() && o.symbolId == MenuSymbol
      modifies this`showMenu, this`selectedOption, this`invalidations
      ensures Valid()
      ensures unchanged(objectList)
      ensures showMenu == (angles != [] || old(showMenu))
      ensures selectedOption == FinalSelection(old(selectedOption), angles)
      ensures invalidations == old(invalidations) + SelectionChanges(old(selectedOption), angles)
    {
      for k := 0 to |angles|
        invariant Valid()
        invariant unchanged(objectList)
        invariant showMenu == (k > 0 || old(showMenu))
        invariant selectedOption == FinalSelection(old(selectedOption), angles[..k])
        invariant invalidations == old(invalidations) + SelectionChanges(old(selectedOption), angles[..k])
      {
        SelectionChangesSnoc(old(selectedOption), angles[..k], angles[k]);
        assert angles[..k + 1] == angles[..k] + [angles[k]];
        UpdateTuioObject(o.(angle := angles[k]));
      }
      assert angles[..|angles|] == angles;
    }

    /** A marker disappears; removing the menu marker hides the menu. */
    method RemoveTuioObject(o: TuioObject)
      requires Valid()
      modifies objectList, this`showMenu, this`invalidations
      ensures Valid()
      ensures objectList.entries == RemoveEntry(old(objectList.entries), o.sessionId)
      ensures showMenu == (o.symbolId != MenuSymbol && old(showMenu))
      ensures invalidations == old(invalidations) + if o.symbolId == MenuSymbol then 1 else 0
    {
      var _ := objectList.Remove(o.sessionId);
      if o.symbolId == MenuSymbol {
        showMenu := false;
        invalidations := invalidations + 1;
      }
    }

    method AddTuioCursor(c: TuioCursor) returns (r: AddResult)
      modifies cursorList
      ensures r == if c.sessionId in old(cursorList.entries) then DuplicateKey else Added
      ensures cursorList.entries == AddEntry(old(cursorList.entries), c.sessionId, c)
    {
      r := cursorList.Add(c.sessionId, c);
    }

    method UpdateTuioCursor(c: TuioCursor)
      modifies cursorList
      ensures cursorList.entries == PutEntry(old(cursorList.entries), c.sessionId, c)
    {
      cursorList.Put(c.sessionId, c);
    }

    method RemoveTuioCursor(c: TuioCursor)
      modifies cursorList
      ensures cursorList.entries == RemoveEntry(old(cursorList.entries), c.sessionId)
    {
      var _ := cursorList.Remove(c.sessionId);
    }

    method AddTuioBlob(b: TuioBlob) returns (r: AddResult)
      modifies blobList
      ensures r == if b.sessionId in old(blobList.entries) then DuplicateKey else Added
      ensures blobList.entries == AddEntry(old(blobList.entries), b.sessionId, b)
    {
      r := blobList.Add(b.sessionId, b);
    }

    method UpdateTuioBlob(b: TuioBlob)
      modifies blobList
      ensures blobList.entries == PutEntry(old(blobList.entries), b.sessionId, b)
    {
      blobList.Put(b.sessionId, b);
    }

    method RemoveTuioBlob(b: TuioBlob)
      modifies blobList
      ensures blobList.entries == RemoveEntry(old(blobList.entries), b.sessionId)
    {
      var _ := blobList.Remove(b.sessionId);
    }

    /** The end of a tracker frame: always a repaint. */
    method Refresh()
      modifies this`invalidations
      ensures invalidations == old(invalidations) + 1
    {
      invalidations := invalidations + 1;
    }
  }

  /**
   * A client of the callbacks: turn the menu marker to 91 degrees, confirm with
   * the second marker, then lift the menu marker.
   */
  method MenuScenario()
  {
    var app := new TuioDemo();
    var menu := TuioObject(10, MenuSymbol, 0.5, 0.5, 91.0);
    var first := app.AddTuioObject(menu);
    assert first == Accepted(None);
    app.UpdateTuioObject(menu);
    FourOptionExamples();
    assert app.showMenu && app.selectedOption == 1 && app.invalidations == 1;
    app.UpdateTuioObject(menu);
    assert app.invalidations == 1;
    var r := app.AddTuioObject(TuioObject(11, ConfirmSymbol, 0.2, 0.2, 0.0));
    assert r == Accepted(Some(InfoScreen));
    var again := app.AddTuioObject(TuioObject(11, ConfirmSymbol, 0.3, 0.3, 0.0));
    assert again == Rejected;
    app.RemoveTuioObject(menu);
    assert !app.showMenu && app.selectedOption == 1;
    assert app.objectList.entries.Keys == {11};
  }
}
