/** The dashboard's navigation: the sidebar menu and the tab bar, both gated by the
    signed-in officer's role, and the tab the dashboard opens on. */
module Dashboard {
  import opened Common
  import opened Records
  import opened Identity

  /** The dashboard's sections, by their tab values. */
  datatype Tab = AdminTab | ControlRoomTab | GateTab | CeoVehiclesTab | StaffVehiclesTab | VisitorsTab | StatusTab
               | ReportsTab

  /** `isControlRoom`: the control room's officers and administrators. */
  predicate IsControlRoom(r: Role) {
    r == SecurityControl || r == Admin
  }

  /** `isGate`: the gate's officers and administrators. */
  predicate IsGate(r: Role) {
    r == SecurityGate || r == Admin
  }

  predicate IsManager(r: Role) {
    r == Admin || r == Supervisor
  }

  /** The sections a role reaches: administration for managers, key management for
      the control room, the three gate screens for the gate, and the visitor desk,
      the live status board and the reports for everyone. */
  function MenuFor(r: Role): (items: seq<Tab>)
    ensures |items| >= 3 && items[|items| - 3..] == [VisitorsTab, StatusTab, ReportsTab]
  {
    (if IsManager(r) then [AdminTab] else []) +
    (if IsControlRoom(r) then [ControlRoomTab] else []) +
    (if IsGate(r) then [GateTab, CeoVehiclesTab, StaffVehiclesTab] else []) +
    [VisitorsTab, StatusTab, ReportsTab]
  }

  /** The tab bar's triggers, in the order they are laid out: administration comes
      after the gate screens there. */
  function TabsFor(r: Role): (tabs: seq<Tab>)
    ensures |tabs| >= 3 && tabs[|tabs| - 3..] == [VisitorsTab, StatusTab, ReportsTab]
  {
    (if IsControlRoom(r) then [ControlRoomTab] else []) +
    (if IsGate(r) then [GateTab, CeoVehiclesTab, StaffVehiclesTab] else []) +
    (if IsManager(r) then [AdminTab] else []) +
    [VisitorsTab, StatusTab, ReportsTab]
  }

  /** The tab the dashboard opens on. */
  function DefaultTab(r: Role): (t: Tab)
    ensures t == ControlRoomTab <==> IsControlRoom(r)
    ensures t == GateTab <==> !IsControlRoom(r)
  {
    if IsControlRoom(r) then ControlRoomTab else GateTab
  }

  /** The menu as the dashboard builds it: one conditional push after another. No
      officer renders nothing. */
  method BuildMenu(officer: Option<Employee>) returns (items: seq<Tab>)
    ensures officer.None? ==> items == []
    ensures officer.Some? ==> items == MenuFor(officer.value.role)
  {
    items := [];
    if officer.None? {
      return;
    }
    var role := officer.value.role;
    var isControlRoom := role == SecurityControl || role == Admin;
    var isGate := role == SecurityGate || role == Admin;
    if role == Admin || role == Supervisor {
      items := items + [AdminTab];
    }
    if isControlRoom {
      items := items + [ControlRoomTab];
    }
    if isGate {
      items := items + [GateTab];
    }
    if isGate {
      items := items + [CeoVehiclesTab];
    }
    if isGate {
      items := items + [StaffVehiclesTab];
    }
    items := items + [VisitorsTab, StatusTab];
    items := items + [ReportsTab];
  }

  /** The menu and the tab bar of each role, written out. */
  lemma MenuByRole(r: Role)
    ensures r == Admin ==>
              MenuFor(r) == [AdminTab, ControlRoomTab, GateTab, CeoVehiclesTab, StaffVehiclesTab, VisitorsTab,
                             StatusTab, ReportsTab] &&
              TabsFor(r) == [ControlRoomTab, GateTab, CeoVehiclesTab, StaffVehiclesTab, AdminTab, VisitorsTab,
                             StatusTab, ReportsTab]
    ensures r == Supervisor ==>
              MenuFor(r) == [AdminTab, VisitorsTab, StatusTab, ReportsTab] &&
              TabsFor(r) == [AdminTab, VisitorsTab, StatusTab, ReportsTab]
    ensures r == SecurityControl ==>
              MenuFor(r) == [ControlRoomTab, VisitorsTab, StatusTab, ReportsTab] && TabsFor(r) == MenuFor(r)
    ensures r == SecurityGate ==>
              MenuFor(r) == [GateTab, CeoVehiclesTab, StaffVehiclesTab, VisitorsTab, StatusTab, ReportsTab] &&
              TabsFor(r) == MenuFor(r)
    ensures !IsOfficerRole(r) ==> MenuFor(r) == [VisitorsTab, StatusTab, ReportsTab] && TabsFor(r) == MenuFor(r)
  {
    if IsOfficerRole(r) {
      if r == Admin {
        assert MenuFor(r) == [AdminTab] + [ControlRoomTab] + [GateTab, CeoVehiclesTab, StaffVehiclesTab] +
                             [VisitorsTab, StatusTab, ReportsTab];
        assert TabsFor(r) == [ControlRoomTab] + [GateTab, CeoVehiclesTab, StaffVehiclesTab] + [AdminTab] +
                             [VisitorsTab, StatusTab, ReportsTab];
      } else if r == Supervisor {
        assert MenuFor(r) == [AdminTab] + [VisitorsTab, StatusTab, ReportsTab];
        assert TabsFor(r) == [AdminTab] + [VisitorsTab, StatusTab, ReportsTab];
      } else if r == SecurityControl {
        assert MenuFor(r) == [ControlRoomTab] + [VisitorsTab, StatusTab, ReportsTab];
        assert TabsFor(r) == [ControlRoomTab] + [VisitorsTab, StatusTab, ReportsTab];
      } else {
        assert MenuFor(r) == [GateTab, CeoVehiclesTab, StaffVehiclesTab] + [VisitorsTab, StatusTab, ReportsTab];
        assert TabsFor(r) == [GateTab, CeoVehiclesTab, StaffVehiclesTab] + [VisitorsTab, StatusTab, ReportsTab];
      }
    }
  }

  /** The menu's length for each role: eight for administrators, six at the gate,
      four in the control room and for supervisors, three for anyone else. */
  lemma MenuSizes(r: Role)
    ensures r == Admin ==> |MenuFor(r)| == 8
    ensures r == SecurityGate ==> |MenuFor(r)| == 6
    ensures r == SecurityControl || r == Supervisor ==> |MenuFor(r)| == 4
    ensures !IsOfficerRole(r) ==> |MenuFor(r)| == 3
  {
    MenuByRole(r);
  }

  /** Administration is offered exactly to administrators and supervisors, and first. */
  lemma AdminFirstForManagers(r: Role)
    ensures AdminTab in MenuFor(r) <==> IsManager(r)
    ensures MenuFor(r)[0] == AdminTab <==> IsManager(r)
  {
    MenuByRole(r);
    if r == Admin {
    } else if r == Supervisor {
    } else if r == SecurityControl {
    } else if r == SecurityGate {
    }
  }

  /** Key management appears exactly for control-room roles. */
  lemma ControlRoomMenu(r: Role)
    ensures ControlRoomTab in MenuFor(r) <==> IsControlRoom(r)
  {
    MenuByRole(r);
    if r == Admin {
    } else if r == Supervisor {
    } else if r == SecurityControl {
    } else if r == SecurityGate {
    }
  }

  /** The three gate screens appear exactly for gate roles. */
  lemma GateMenu(r: Role)
    ensures GateTab in MenuFor(r) <==> IsGate(r)
    ensures CeoVehiclesTab in MenuFor(r) <==> IsGate(r)
    ensures StaffVehiclesTab in MenuFor(r) <==> IsGate(r)
  {
    MenuByRole(r);
    if r == Admin {
    } else if r == Supervisor {
    } else if r == SecurityControl {
    } else if r == SecurityGate {
    }
  }

  /** The gate screens come together and in order, just before the shared sections
      and right after key management when the role has both. */
  lemma GateScreensInOrder(r: Role)
    requires IsGate(r)
    ensures var i := |MenuFor(r)| - 6;
            i >= 0 && MenuFor(r)[i..i + 3] == [GateTab, CeoVehiclesTab, StaffVehiclesTab] &&
            (IsControlRoom(r) ==> i >= 1 && MenuFor(r)[i - 1] == ControlRoomTab)
  {
    MenuByRole(r);
  }

  /** The menu and the tab bar list the same sections. */
  lemma TabBarMatchesMenu(r: Role)
    ensures multiset(TabsFor(r)) == multiset(MenuFor(r))
  {
    MenuByRole(r);
  }

  /** Only administrators see the two in a different order: administration first in
      the menu, after the gate screens in the tab bar. */
  lemma TabBarOrderDiffersForAdmin(r: Role)
    ensures TabsFor(r) == MenuFor(r) <==> r != Admin
  {
    MenuByRole(r);
    if r == Admin {
      assert MenuFor(r)[0] != TabsFor(r)[0];
    }
  }

  /** The tab the dashboard opens on is one of its tabs exactly for control-room and
      gate roles; a supervisor's dashboard opens on the gate tab, which it does not
      have. */
  lemma DefaultTabShown(r: Role)
    ensures DefaultTab(r) in TabsFor(r) <==> IsControlRoom(r) || IsGate(r)
    ensures r == Supervisor ==> DefaultTab(r) == GateTab && GateTab !in TabsFor(r)
  {
    MenuByRole(r);
    if IsControlRoom(r) || IsGate(r) {
      assert TabsFor(r)[0] == DefaultTab(r);
    }
  }
}
