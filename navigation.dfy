/** Where a signed-in user lands after logging in. */
module Navigation {
  import opened Models

  datatype Dashboard = AdminDashboard | FacultyDashboard | StudentDashboard

  /** `dashboard_redirect`: ADMIN and FACULTY have their own dashboards;
      every other role tag, HOD included, is sent to the student dashboard. */
  function DashboardFor(role: string): (d: Dashboard)
    ensures d == AdminDashboard <==> role == ADMIN
    ensures d == FacultyDashboard <==> role == FACULTY
    ensures d == StudentDashboard <==> role != ADMIN && role != FACULTY
  {
    if role == ADMIN then AdminDashboard
    else if role == FACULTY then FacultyDashboard
    else StudentDashboard
  }
}
