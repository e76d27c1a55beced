/** The records the profile store keeps per user and the components edit.
    Fields the source declares optional are optional here only where some
    code path tests for their absence. */
module Records {
  import opened Options

  /** One entry of a resume's experience list. */
  datatype Experience = Experience(company: string, role: string, startDate: string, endDate: string, description: string)

  /** One entry of a resume's education list. */
  datatype Education = Education(school: string, degree: string, year: string)

  /** A user-defined resume section. */
  datatype CustomSection = CustomSection(title: string, content: string)

  /** The resume blob a fresh profile starts with. */
  datatype ResumeData = ResumeData(
    fullName: string,
    email: string,
    summary: string,
    experience: seq<Experience>,
    education: seq<Education>,
    skills: string)

  /** The resume editor's form value, the snapshot the undo history stores
      and the data a section export renders. */
  datatype FormValue = FormValue(
    fullName: string,
    jobTitle: string,
    email: string,
    phone: string,
    location: string,
    website: string,
    twitter: string,
    github: string,
    summary: string,
    experience: seq<Experience>,
    education: seq<Education>,
    skills: string,
    customSections: seq<CustomSection>)

  /** A search result the user saved; jobs are told apart by their web address. */
  datatype Job = Job(uri: string, title: string)

  /** A learning resource attached to a roadmap step; `kind` is its `type`,
      which a generated roadmap may lack. */
  datatype Resource = Resource(kind: Option<string>, title: string, url: string)

  /** One milestone of a learning roadmap, with the user's completion flag. */
  datatype Step = Step(
    title: string,
    duration: string,
    description: string,
    topics: seq<string>,
    projectIdea: string,
    prerequisites: seq<string>,
    resources: seq<Resource>,
    completed: bool)

  /** A generated learning roadmap. */
  datatype Roadmap = Roadmap(steps: seq<Step>, currentSkills: seq<string>, requiredSkills: seq<string>, gapSkills: seq<string>)

  datatype ChatRole = UserRole | ModelRole

  /** One chat message (its rendered HTML is left out). */
  datatype Message = Message(role: ChatRole, text: string)

  /** A career-coach conversation; `id` is the creation time as a string. */
  datatype ChatSession = ChatSession(id: string, title: string, createdAt: int, messages: seq<Message>)

  /** A cover letter the user saved; `id` is the creation time as a string. */
  datatype CoverLetter = CoverLetter(id: string, jobTitle: string, company: string, createdAt: int, letter: string)

  /** A registered user, stored under `email`. */
  datatype Profile = Profile(
    name: string,
    email: string,
    password: Option<string>,
    role: string,
    skills: seq<string>,
    resumeData: Option<ResumeData>,
    savedJobs: seq<Job>,
    roadmap: Option<Roadmap>,
    chatSessions: seq<ChatSession>,
    savedCoverLetters: seq<CoverLetter>,
    createdAt: int)
}
