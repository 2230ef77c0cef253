/** The rows the dashboard reads: a demand (a student's support case) and a
    chat message attached to it. Nullable columns are `Option`s; timestamps
    are abstract instants (an `int`, larger is later); numbers are `real`
    except the counts, which are whole. */
module Supabase {
  import opened Wrappers

  datatype PreferredChannel = Whatsapp | Ligacao | Sms

  datatype SuggestedProblem =
    | Transporte
    | TerapiaEmocional
    | Fisioterapia
    | InsegurancaAlimentar
    | ApoioFinanceiro
    | ReforcoEscolar
    | Outro

  /** The case lifecycle: awaiting a volunteer, in progress, concluded. */
  datatype Status = AguardandoVoluntario | EmProgresso | Concluida

  datatype Sender = Voluntario | Familia | Sistema

  /** One visit to the public health service. */
  datatype SusVisit = SusVisit(date: int, kind: string, notes: Option<string>)

  /** A support case. `id` is an opaque string; the empty string is the one
      value JavaScript treats as false. */
  datatype Demand = Demand(
    id: string,
    createdAt: int,
    studentName: string,
    studentAge: int,
    guardianName: string,
    contactPhone: string,
    preferredChannel: PreferredChannel,
    addressStreet: Option<string>,
    addressNeighborhood: Option<string>,
    city: Option<string>,
    state: Option<string>,
    zip: Option<string>,
    geoLat: Option<real>,
    geoLng: Option<real>,
    schoolName: Option<string>,
    attendanceDaysPresent30d: Option<int>,
    attendanceDaysAbsent30d: Option<int>,
    gradesLastTerm: Option<map<string, real>>,
    behaviorNotes: Option<string>,
    susVisits: Option<seq<SusVisit>>,
    suggestedProblem: Option<SuggestedProblem>,
    riskScore: Option<real>,
    consentGrantedAt: Option<int>,
    status: Status,
    assignedVolunteerName: Option<string>)

  datatype Message = Message(
    id: string,
    createdAt: int,
    demandId: string,
    sender: Sender,
    content: string)
}
